/** `_product` and `_reshape`: the product of an array shape and the
    row-major grouping of a flat list of values into nested lists of that
    shape. */
module Shapes {
  import opened Common
  import opened Arith

  /** `_product`: the product of the dimensions, folded from the left
      starting at 1. */
  function Product(shape: seq<nat>): nat
  {
    if |shape| == 0 then 1 else Mul(Product(shape[..|shape| - 1]), shape[|shape| - 1])
  }

  /** The fold can be taken from the front: the product is the product of
      the trailing dimensions, taken shape[0] times. */
  lemma {:induction false} ProductCons(shape: seq<nat>)
    requires |shape| >= 1
    ensures Product(shape) == Mul(Product(shape[1..]), shape[0])
    decreases |shape|
  {
    var n := |shape|;
    if n == 1 {
      assert shape[..0] == [] && shape[1..] == [];
    } else {
      var init := shape[..n - 1];
      var tail := shape[1..];
      ProductCons(init);
      assert init[1..] == tail[..n - 2];
      assert tail[n - 2] == shape[n - 1];
      MulSwap(Product(init[1..]), shape[0], shape[n - 1]);
    }
  }

  /** The product is zero exactly when some dimension is zero. */
  lemma {:induction false} ProductZero(shape: seq<nat>)
    ensures Product(shape) == 0 <==> exists i :: 0 <= i < |shape| && shape[i] == 0
    decreases |shape|
  {
    var n := |shape|;
    if n > 0 {
      var init := shape[..n - 1];
      ProductZero(init);
      MulIsTimes(Product(init), shape[n - 1]);
      if Product(shape) == 0 {
        if Product(init) == 0 {
          var j :| 0 <= j < |init| && init[j] == 0;
          assert shape[j] == 0;
        } else {
          assert shape[n - 1] == 0;
        }
      } else {
        forall i | 0 <= i < n
          ensures shape[i] != 0
        {
          if i < n - 1 {
            assert shape[i] == init[i];
          }
        }
      }
    }
  }

  /** A value of nested lists: a flat list of values at the innermost level
      (the one-dimensional case returns the list itself), lists of nested
      values above it. */
  datatype Nested<T> = Leaf(vals: seq<T>) | Node(children: seq<Nested<T>>)

  /** Whether a nested value has the given shape: `shape[0]` entries at the
      top, each of shape `shape[1:]`, down to flat lists of the last
      dimension's length. */
  predicate HasShape<T>(v: Nested<T>, shape: seq<nat>)
    decreases |shape|
  {
    if |shape| == 0 then false
    else if |shape| == 1 then v.Leaf? && |v.vals| == shape[0]
    else v.Node? && |v.children| == shape[0] &&
         forall i :: 0 <= i < |v.children| ==> HasShape(v.children[i], shape[1..])
  }

  /** Concatenation of a list of lists, in order. */
  function Concat<T>(ss: seq<seq<T>>): seq<T>
  {
    if |ss| == 0 then [] else Concat(ss[..|ss| - 1]) + ss[|ss| - 1]
  }

  /** Row-major flattening of a nested value. */
  function Flatten<T>(v: Nested<T>): seq<T>
  {
    match v
    case Leaf(vals) => vals
    case Node(cs) => Concat(seq(|cs|, i requires 0 <= i < |cs| => Flatten(cs[i])))
  }

  /** Row i of a reshape into `shape`: the i-th run of `_product(shape[1:])`
      values, clamped to the list, reshaped into `shape[1:]`. */
  function Row<T>(vals: seq<T>, shape: seq<nat>, i: nat): Result<Nested<T>>
    requires |shape| >= 2
    decreases |shape|, 0, 0
  {
    var siz := Product(shape[1..]);
    Reshape(ClampSlice(vals, Mul(siz, i), Mul(siz, i + 1)), shape[1..])
  }

  /** Rows 0 .. k - 1 of a reshape into `shape`, built in order; the first
      row that fails is the failure. */
  function Rows<T>(vals: seq<T>, shape: seq<nat>, k: nat): (r: Result<seq<Nested<T>>>)
    requires |shape| >= 2
    ensures r.Ok? ==> |r.value| == k
    ensures r.Err? ==> r.error == ShapeMismatch
    decreases |shape|, 1, k
  {
    if k == 0 then Ok([])
    else
      var init :- Rows(vals, shape, k - 1);
      var last :- Row(vals, shape, k - 1);
      Ok(init + [last])
  }

  /** `_reshape(vals, shape)`. A one-dimensional shape demands exactly its
      length; a longer shape cuts `shape[0]` consecutive rows and reshapes
      each, so values past the last row are ignored. An empty shape fails
      when its first dimension is looked up. */
  function Reshape<T>(vals: seq<T>, shape: seq<nat>): (r: Result<Nested<T>>)
    ensures r.Err? ==> (r.error == EmptyShape <==> |shape| == 0)
    ensures r.Err? ==> r.error == EmptyShape || r.error == ShapeMismatch
    ensures |shape| == 1 ==> (r.Ok? <==> |vals| == shape[0])
    ensures r.Ok? && |shape| == 1 ==> r.value == Leaf(vals)
    ensures r.Ok? && |shape| >= 2 ==> r.value.Node? && |r.value.children| == shape[0]
    decreases |shape|, 2, 0
  {
    if |shape| == 0 then Err(EmptyShape)
    else if |shape| == 1 then
      if |vals| != shape[0] then Err(ShapeMismatch) else Ok(Leaf(vals))
    else
      var rows :- Rows(vals, shape, shape[0]);
      Ok(Node(rows))
  }

  /** Whether `_reshape` succeeds: a one-dimensional shape needs exactly its
      length, a longer shape at least the product of its dimensions. */
  predicate Reshapeable(n: nat, shape: seq<nat>)
  {
    if |shape| == 0 then false
    else if |shape| == 1 then n == shape[0]
    else n >= Product(shape)
  }

  /** One more row: the rows up to k succeed when those before k - 1 do and
      row k - 1 does. */
  lemma RowsStep<T>(vals: seq<T>, shape: seq<nat>, k: nat)
    requires |shape| >= 2 && k > 0
    ensures Rows(vals, shape, k).Ok? <==> Rows(vals, shape, k - 1).Ok? && Row(vals, shape, k - 1).Ok?
  {
  }

  /** The rows built so far succeed when each of them does. */
  lemma {:induction false} RowsOk<T>(vals: seq<T>, shape: seq<nat>, k: nat)
    requires |shape| >= 2
    ensures Rows(vals, shape, k).Ok? <==> forall i :: 0 <= i < k ==> Row(vals, shape, i).Ok?
    decreases k
  {
    if k > 0 {
      RowsOk(vals, shape, k - 1);
      RowsStep(vals, shape, k);
      if Rows(vals, shape, k).Ok? {
        forall i | 0 <= i < k
          ensures Row(vals, shape, i).Ok?
        {
          if i < k - 1 {
            assert Rows(vals, shape, k - 1).Ok?;
          }
        }
      } else if Rows(vals, shape, k - 1).Ok? {
        assert !Row(vals, shape, k - 1).Ok?;
      } else {
        var j :| 0 <= j < k - 1 && !Row(vals, shape, j).Ok?;
        assert !Row(vals, shape, j).Ok?;
      }
    }
  }

  /** Rows that succeed are the rows in order. */
  lemma {:induction false} RowsValues<T>(vals: seq<T>, shape: seq<nat>, k: nat)
    requires |shape| >= 2 && Rows(vals, shape, k).Ok?
    ensures |Rows(vals, shape, k).value| == k
    ensures forall i :: 0 <= i < k ==>
      Row(vals, shape, i).Ok? && Rows(vals, shape, k).value[i] == Row(vals, shape, i).value
    decreases k
  {
    if k > 0 {
      RowsValues(vals, shape, k - 1);
      var init := Rows(vals, shape, k - 1).value;
      var last := Row(vals, shape, k - 1).value;
      assert Rows(vals, shape, k).value == init + [last];
      forall i | 0 <= i < k
        ensures Row(vals, shape, i).Ok? && Rows(vals, shape, k).value[i] == Row(vals, shape, i).value
      {
        if i < k - 1 {
          assert (init + [last])[i] == init[i];
        }
      }
    }
  }

  /** For two or more dimensions, `_reshape` succeeds when every row does,
      and its result is the list of the rows. */
  lemma ReshapeRows<T>(vals: seq<T>, shape: seq<nat>)
    requires |shape| >= 2
    ensures Reshape(vals, shape).Ok? <==> forall i :: 0 <= i < shape[0] ==> Row(vals, shape, i).Ok?
    ensures Reshape(vals, shape).Ok? ==>
      (Reshape(vals, shape).value.Node? &&
       |Reshape(vals, shape).value.children| == shape[0] &&
       forall i :: 0 <= i < shape[0] ==> Reshape(vals, shape).value.children[i] == Row(vals, shape, i).value)
  {
    RowsOk(vals, shape, shape[0]);
    if Reshape(vals, shape).Ok? {
      RowsValues(vals, shape, shape[0]);
    }
  }

  /** Row i exists exactly when the list reaches the end of the row. */
  lemma {:induction false} RowOk<T>(vals: seq<T>, shape: seq<nat>, i: nat)
    requires |shape| >= 2
    ensures Row(vals, shape, i).Ok? <==> Mul(Product(shape[1..]), i + 1) <= |vals|
    decreases |shape|, 0
  {
    var tail := shape[1..];
    var siz := Product(tail);
    var part := ClampSlice(vals, Mul(siz, i), Mul(siz, i + 1));
    ReshapeOk(part, tail);
    if |tail| == 1 {
      assert tail[..0] == [];
      MulOne(tail[0]);
    }
    if siz == 0 {
      MulZero(i);
      MulZero(i + 1);
    }
  }

  /** `_reshape` succeeds exactly when the list has enough values. */
  lemma {:induction false} ReshapeOk<T>(vals: seq<T>, shape: seq<nat>)
    ensures Reshape(vals, shape).Ok? <==> Reshapeable(|vals|, shape)
    decreases |shape|, 1
  {
    if |shape| >= 2 {
      var k := shape[0];
      var siz := Product(shape[1..]);
      ProductCons(shape);
      ReshapeRows(vals, shape);
      forall i | 0 <= i < k
        ensures Row(vals, shape, i).Ok? <==> Mul(siz, i + 1) <= |vals|
      {
        RowOk(vals, shape, i);
      }
      MulReach(siz, k, |vals|);
      if Mul(siz, k) <= |vals| {
        forall i | 0 <= i < k ensures Row(vals, shape, i).Ok? {
          assert Mul(siz, i + 1) <= |vals|;
        }
      } else {
        assert !Row(vals, shape, k - 1).Ok?;
      }
    }
  }

  /** The rows end at multiples of the row size: all k of them end inside a
      list of n values exactly when the last one does. */
  lemma MulReach(siz: nat, k: nat, n: nat)
    ensures (forall j :: 1 <= j <= k ==> Mul(siz, j) <= n) <==> Mul(siz, k) <= n
  {
    if Mul(siz, k) <= n {
      forall j | 1 <= j <= k ensures Mul(siz, j) <= n {
        MulGrows(siz, j, k);
      }
    }
  }

  /** A successful `_reshape` has the requested shape. */
  lemma {:induction false} ReshapeShape<T>(vals: seq<T>, shape: seq<nat>)
    requires Reshape(vals, shape).Ok?
    ensures HasShape(Reshape(vals, shape).value, shape)
    decreases |shape|
  {
    if |shape| >= 2 {
      ReshapeRows(vals, shape);
      var v := Reshape(vals, shape).value;
      forall i | 0 <= i < shape[0] ensures HasShape(v.children[i], shape[1..]) {
        var siz := Product(shape[1..]);
        assert Row(vals, shape, i).Ok?;
        ReshapeShape(ClampSlice(vals, Mul(siz, i), Mul(siz, i + 1)), shape[1..]);
      }
    }
  }

  /** A successful `_reshape` flattens back, row-major, to the values it
      used: all of them for one dimension, the first product-many otherwise. */
  lemma {:induction false} ReshapeFlatten<T>(vals: seq<T>, shape: seq<nat>)
    requires Reshape(vals, shape).Ok?
    ensures Product(shape) <= |vals| && Flatten(Reshape(vals, shape).value) == vals[..Product(shape)]
    decreases |shape|
  {
    ReshapeOk(vals, shape);
    if |shape| == 1 {
      assert shape[..0] == [];
      MulOne(shape[0]);
      assert vals[..|vals|] == vals;
    } else {
      var k := shape[0];
      var tail := shape[1..];
      var siz := Product(tail);
      ProductCons(shape);
      ReshapeRows(vals, shape);
      var cs := Reshape(vals, shape).value.children;
      var parts := seq(k, i requires 0 <= i < k => Flatten(cs[i]));
      forall i | 0 <= i < k
        ensures IsChunk(vals, siz, i, parts[i])
      {
        MulGrows(siz, i + 1, k);
        assert Row(vals, shape, i).Ok?;
        ReshapeFlatten(ClampSlice(vals, Mul(siz, i), Mul(siz, i + 1)), tail);
      }
      ConcatChunks(vals, siz, k, parts);
    }
  }

  /** `part` is run i of `siz` values of `vals`. */
  ghost predicate IsChunk<T>(vals: seq<T>, siz: nat, i: nat, part: seq<T>)
  {
    Mul(siz, i + 1) <= |vals| && part == vals[Mul(siz, i) .. Mul(siz, i + 1)]
  }

  /** Consecutive runs of `siz` values, concatenated in order, give back the
      first `k * siz` values. */
  lemma {:induction false} ConcatChunks<T>(vals: seq<T>, siz: nat, k: nat, parts: seq<seq<T>>)
    requires |parts| == k && Mul(siz, k) <= |vals|
    requires forall i :: 0 <= i < k ==> IsChunk(vals, siz, i, parts[i])
    ensures Concat(parts) == vals[..Mul(siz, k)]
    decreases k
  {
    if k > 0 {
      var init := parts[..k - 1];
      MulGrows(siz, k - 1, k);
      assert forall i :: 0 <= i < k - 1 ==> init[i] == parts[i];
      ConcatChunks(vals, siz, k - 1, init);
      assert IsChunk(vals, siz, k - 1, parts[k - 1]);
      assert vals[..Mul(siz, k)] == vals[..Mul(siz, k - 1)] + vals[Mul(siz, k - 1) .. Mul(siz, k)];
    }
  }

  /** A reshape into two rows is the node of those two rows. */
  lemma TwoRows<T>(vals: seq<T>, shape: seq<nat>, a: Nested<T>, b: Nested<T>)
    requires |shape| >= 2 && shape[0] == 2
    requires Row(vals, shape, 0) == Ok(a) && Row(vals, shape, 1) == Ok(b)
    ensures Reshape(vals, shape) == Ok(Node([a, b]))
  {
    assert Rows(vals, shape, 0) == Ok([]);
    assert [] + [a] == [a];
    assert Rows(vals, shape, 1) == Ok([a]);
    assert [a] + [b] == [a, b];
    assert Rows(vals, shape, 2) == Ok([a, b]);
  }

  /** Twelve values in shape (2, 2, 3), six of them in shape (2, 3). */
  lemma ReshapeHalf(x: int)
    ensures Reshape([x, x + 1, x + 2, x + 3, x + 4, x + 5], [2, 3]) ==
      Ok(Node([Leaf([x, x + 1, x + 2]), Leaf([x + 3, x + 4, x + 5])]))
  {
    var half := [x, x + 1, x + 2, x + 3, x + 4, x + 5];
    MulOne(3);
    assert Product([3]) == 3;
    assert ClampSlice(half, 0, 3) == [x, x + 1, x + 2];
    assert ClampSlice(half, 3, 6) == [x + 3, x + 4, x + 5];
    TwoRows(half, [2, 3], Leaf([x, x + 1, x + 2]), Leaf([x + 3, x + 4, x + 5]));
  }

  /** The example of the `_reshape` docstring: twelve values in shape
      (2, 2, 3). */
  lemma ReshapeExample()
    ensures Reshape([0, 1, 2, 3, 4, 5, 6, 7, 8, 9, 10, 11], [2, 2, 3]) ==
      Ok(Node([Node([Leaf([0, 1, 2]), Leaf([3, 4, 5])]), Node([Leaf([6, 7, 8]), Leaf([9, 10, 11])])]))
  {
    var vals := [0, 1, 2, 3, 4, 5, 6, 7, 8, 9, 10, 11];
    ProductCons([2, 3]);
    MulOne(3);
    assert [2, 2, 3][1..] == [2, 3] && [2, 3][1..] == [3];
    assert Product([2, 3]) == 6;
    assert ClampSlice(vals, 0, 6) == [0, 1, 2, 3, 4, 5];
    assert ClampSlice(vals, 6, 12) == [6, 7, 8, 9, 10, 11];
    ReshapeHalf(0);
    ReshapeHalf(6);
    TwoRows(vals, [2, 2, 3], Node([Leaf([0, 1, 2]), Leaf([3, 4, 5])]), Node([Leaf([6, 7, 8]), Leaf([9, 10, 11])]));
  }
}
