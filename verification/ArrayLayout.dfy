/** Where the elements of a split array live: the parts are column-major arrays of the remaining dimensions, and they
    hold what the original holds. */
module ArrayLayout {

  function Prod(shape: seq<nat>): nat {
    if shape == [] then 1 else shape[0] * Prod(shape[1..])
  }

  /** The strides the split gives each part: `strides[i]` is the product of the extents before `i`. */
  function Strides(shape: seq<nat>): seq<int> {
    seq(|shape|, i requires 0 <= i < |shape| => Prod(shape[..i]))
  }

  function Dot(idx: seq<int>, strides: seq<int>): int
    requires |idx| == |strides|
  {
    if idx == [] then 0 else idx[0] * strides[0] + Dot(idx[1..], strides[1..])
  }

  ghost predicate InBounds(shape: seq<nat>, idx: seq<int>) {
    |idx| == |shape| && forall i :: 0 <= i < |idx| ==> 0 <= idx[i] < shape[i]
  }

  /** The linear offset of an element of a part. */
  function Offset(shape: seq<nat>, idx: seq<int>): int
    requires |idx| == |shape|
  {
    Dot(idx, Strides(shape))
  }

  // ---------------------------------------------------------------- the layout is a bijection

  /** The inverse of `Offset`. */
  ghost function ElementAt(shape: seq<nat>, offset: int): (idx: seq<int>)
    requires 0 <= offset < Prod(shape)
    ensures |idx| == |shape|
  {
    if shape == [] then []
    else
      Quotient(offset, shape[0], Prod(shape[1..]));
      [offset % shape[0]] + ElementAt(shape[1..], offset / shape[0])
  }

  lemma MulMono(n: nat, x: int, y: int)
    requires x <= y
    ensures n * x <= n * y
  {
  }

  lemma Quotient(a: int, n: nat, m: nat)
    requires 0 <= a < n * m
    ensures 0 < n && 0 <= a % n < n && 0 <= a / n < m && a == a % n + n * (a / n)
  {
    if a / n >= m {
      MulMono(n, m, a / n);
    }
  }

  lemma SmallMultiple(n: nat, d: int)
    requires 0 - n < n * d < n
    ensures d == 0
  {
    if d >= 1 {
      MulMono(n, 1, d);
    } else if d <= -1 {
      MulMono(n, d, -1);
    }
  }

  lemma Recompose(x: int, n: nat, q: int, m: nat)
    requires 0 <= x < n && 0 <= q < m
    ensures 0 <= x + n * q < n * m
    ensures (x + n * q) % n == x && (x + n * q) / n == q
  {
    MulMono(n, 0, q);
    MulMono(n, q + 1, m);
    assert n * (q + 1) == n * q + n;
    var a := x + n * q;
    var d := a / n - q;
    assert n * d == n * (a / n) - n * q;
    SmallMultiple(n, d);
  }

  /** `Prod` of the first `i + 1` extents, taken from the front. */
  lemma ProdTake(shape: seq<nat>, i: nat)
    requires shape != [] && i < |shape|
    ensures Prod(shape[..i + 1]) == shape[0] * Prod(shape[1..][..i])
  {
    assert shape[..i + 1][1..] == shape[1..][..i];
  }

  lemma {:induction false} DotScale(idx: seq<int>, a: seq<int>, b: seq<int>, n: int)
    requires |idx| == |a| == |b| && forall i :: 0 <= i < |a| ==> b[i] == n * a[i]
    ensures Dot(idx, b) == n * Dot(idx, a)
  {
    if idx != [] {
      DotScale(idx[1..], a[1..], b[1..], n);
      assert b[0] == n * a[0];
      assert idx[0] * (n * a[0]) == n * (idx[0] * a[0]);
    }
  }

  /** The strided offset, one dimension at a time. */
  lemma OffsetStep(shape: seq<nat>, idx: seq<int>)
    requires |idx| == |shape| && shape != []
    ensures Offset(shape, idx) == idx[0] + shape[0] * Offset(shape[1..], idx[1..])
  {
    var rest, tail := Strides(shape[1..]), Strides(shape)[1..];
    forall i | 0 <= i < |rest| ensures tail[i] == shape[0] * rest[i] {
      ProdTake(shape, i);
    }
    DotScale(idx[1..], rest, tail, shape[0]);
    assert Strides(shape)[0] == 1 by { assert shape[..0] == []; }
  }

  /** In-bounds elements land in `0..size-1`, and `ElementAt` finds the element again: the offset is injective. */
  lemma {:induction false} OffsetThenElement(shape: seq<nat>, idx: seq<int>)
    requires InBounds(shape, idx)
    ensures 0 <= Offset(shape, idx) < Prod(shape)
    ensures ElementAt(shape, Offset(shape, idx)) == idx
  {
    if shape != [] {
      OffsetThenElement(shape[1..], idx[1..]);
      OffsetStep(shape, idx);
      Recompose(idx[0], shape[0], Offset(shape[1..], idx[1..]), Prod(shape[1..]));
      assert idx == [idx[0]] + idx[1..];
    }
  }

  /** Every offset belongs to an in-bounds element: the offset is onto. */
  lemma {:induction false} ElementThenOffset(shape: seq<nat>, offset: int)
    requires 0 <= offset < Prod(shape)
    ensures InBounds(shape, ElementAt(shape, offset))
    ensures Offset(shape, ElementAt(shape, offset)) == offset
  {
    if shape != [] {
      Quotient(offset, shape[0], Prod(shape[1..]));
      ElementThenOffset(shape[1..], offset / shape[0]);
      var idx := ElementAt(shape, offset);
      assert idx[1..] == ElementAt(shape[1..], offset / shape[0]);
      OffsetStep(shape, idx);
    }
  }

  // ---------------------------------------------------------------- the parts simulate the array

  /** An element access in program order. */
  datatype Op<V> = Read(idx: seq<int>) | Write(idx: seq<int>, value: V)

  /** An index, or a shape, without the split dimension. */
  function Without<T>(s: seq<T>, dim: nat): seq<T>
    requires dim < |s|
  {
    s[..dim] + s[dim + 1..]
  }

  /** The accesses the split accepts: in bounds, the split subscript one of the used constants. */
  ghost predicate Accepted<V>(shape: seq<nat>, dim: nat, used: set<int>, op: Op<V>)
    requires dim < |shape|
  {
    InBounds(shape, op.idx) && op.idx[dim] in used
  }

  /** The values read, in order, and the array left behind. */
  ghost function RunArray<V>(a: map<seq<int>, V>, ops: seq<Op<V>>): (seq<V>, map<seq<int>, V>)
    requires forall op :: op in ops ==> op.idx in a
    decreases |ops|
  {
    if ops == [] then ([], a)
    else match ops[0]
      case Read(idx) =>
        assert idx == ops[0].idx;
        var r := RunArray(a, ops[1..]);
        ([a[idx]] + r.0, r.1)
      case Write(idx, v) => RunArray(a[idx := v], ops[1..])
  }

  /** The same accesses on the split arrays, which are flat memories. */
  ghost function RunParts<V>(shape: seq<nat>, dim: nat, used: set<int>, parts: map<int, seq<V>>, ops: seq<Op<V>>)
    : (seq<V>, map<int, seq<V>>)
    requires dim < |shape| && Allocated(shape, dim, used, parts)
    requires forall op :: op in ops ==> Accepted(shape, dim, used, op)
    decreases |ops|
  {
    if ops == [] then ([], parts)
    else
      var op := ops[0];
      assert op in ops && Accepted(shape, dim, used, op);
      var k, at := op.idx[dim], PartOffset(shape, dim, op.idx);
      match op
      case Read(_) =>
        var r := RunParts(shape, dim, used, parts, ops[1..]);
        ([parts[k][at]] + r.0, r.1)
      case Write(_, v) =>
        RunParts(shape, dim, used, parts[k := parts[k][at := v]], ops[1..])
  }

  ghost predicate Allocated<V>(shape: seq<nat>, dim: nat, used: set<int>, parts: map<int, seq<V>>)
    requires dim < |shape|
  {
    forall k :: k in used ==> k in parts && |parts[k]| == Prod(Without(shape, dim))
  }

  ghost function PartOffset(shape: seq<nat>, dim: nat, idx: seq<int>): (at: int)
    requires dim < |shape| && InBounds(shape, idx)
    ensures 0 <= at < Prod(Without(shape, dim))
  {
    OffsetThenElement(Without(shape, dim), Without(idx, dim));
    Offset(Without(shape, dim), Without(idx, dim))
  }

  /** Part `k` holds the elements of the array whose split subscript is `k`. */
  ghost predicate Holds<V(!new)>(shape: seq<nat>, dim: nat, used: set<int>, a: map<seq<int>, V>,
                                  parts: map<int, seq<V>>)
    requires dim < |shape| && Allocated(shape, dim, used, parts)
  {
    forall idx :: InBounds(shape, idx) && idx[dim] in used ==>
      idx in a && parts[idx[dim]][PartOffset(shape, dim, idx)] == a[idx]
  }

  lemma Reinsert(s: seq<int>, dim: nat)
    requires dim < |s|
    ensures s == Without(s, dim)[..dim] + [s[dim]] + Without(s, dim)[dim..]
  {
  }

  /** Two elements of one part at one offset are one element. */
  lemma PartOffsetInjective(shape: seq<nat>, dim: nat, x: seq<int>, y: seq<int>)
    requires dim < |shape| && InBounds(shape, x) && InBounds(shape, y)
    requires x[dim] == y[dim] && PartOffset(shape, dim, x) == PartOffset(shape, dim, y)
    ensures x == y
  {
    OffsetThenElement(Without(shape, dim), Without(x, dim));
    OffsetThenElement(Without(shape, dim), Without(y, dim));
    Reinsert(x, dim);
    Reinsert(y, dim);
  }

  lemma WriteKeepsHolds<V(!new)>(shape: seq<nat>, dim: nat, used: set<int>, a: map<seq<int>, V>,
                                 parts: map<int, seq<V>>, idx: seq<int>, v: V)
    requires dim < |shape| && Allocated(shape, dim, used, parts) && Holds(shape, dim, used, a, parts)
    requires InBounds(shape, idx) && idx[dim] in used
    ensures var k := idx[dim];
            var parts' := parts[k := parts[k][PartOffset(shape, dim, idx) := v]];
            Allocated(shape, dim, used, parts') && Holds(shape, dim, used, a[idx := v], parts')
  {
    var k, at := idx[dim], PartOffset(shape, dim, idx);
    var parts', a' := parts[k := parts[k][at := v]], a[idx := v];
    forall y | InBounds(shape, y) && y[dim] in used
      ensures y in a' && parts'[y[dim]][PartOffset(shape, dim, y)] == a'[y]
    {
      if y != idx && y[dim] == k && PartOffset(shape, dim, y) == at {
        PartOffsetInjective(shape, dim, idx, y);
      }
    }
  }

  /** Any sequence of accepted accesses reads the same values from the parts, and leaves them holding the array. */
  lemma {:induction false} PartsSimulate<V(!new)>(shape: seq<nat>, dim: nat, used: set<int>, a: map<seq<int>, V>,
                                                  parts: map<int, seq<V>>, ops: seq<Op<V>>)
    requires dim < |shape| && Allocated(shape, dim, used, parts) && Holds(shape, dim, used, a, parts)
    requires forall op :: op in ops ==> Accepted(shape, dim, used, op)
    ensures forall op :: op in ops ==> op.idx in a
    ensures RunArray(a, ops).0 == RunParts(shape, dim, used, parts, ops).0
    ensures Allocated(shape, dim, used, RunParts(shape, dim, used, parts, ops).1)
    ensures Holds(shape, dim, used, RunArray(a, ops).1, RunParts(shape, dim, used, parts, ops).1)
    decreases |ops|
  {
    if ops != [] {
      assert ops[0] in ops && Accepted(shape, dim, used, ops[0]);
      match ops[0]
      case Read(idx) =>
        PartsSimulate(shape, dim, used, a, parts, ops[1..]);
      case Write(idx, v) =>
        var k := idx[dim];
        WriteKeepsHolds(shape, dim, used, a, parts, idx, v);
        PartsSimulate(shape, dim, used, a[idx := v], parts[k := parts[k][PartOffset(shape, dim, idx) := v]], ops[1..]);
    }
  }
}
