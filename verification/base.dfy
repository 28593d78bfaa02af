/** Shared vocabulary of the model: the error kinds a Python call can raise,
    a result type carrying them, sums and products over sequences, Python's
    negative indexing, and the cartesian product of `itertools.product`. */
module Base {

  /** The exceptions of the modelled code that the model keeps apart. */
  datatype Error = IndexError | ValueError | KeyError

  /** The outcome of a call that may raise. */
  datatype Result<+T> = Ok(value: T) | Err(error: Error)

  datatype Option<+T> = None | Some(value: T)

  function Max0(n: int): nat
  {
    if n < 0 then 0 else n
  }

  function Min(a: int, b: int): int
  {
    if a <= b then a else b
  }

  function Sum(xs: seq<int>): int
  {
    if |xs| == 0 then 0 else xs[0] + Sum(xs[1..])
  }

  function Prod(xs: seq<int>): int
  {
    if |xs| == 0 then 1 else xs[0] * Prod(xs[1..])
  }

  function SumReal(xs: seq<real>): real
  {
    if |xs| == 0 then 0.0 else xs[0] + SumReal(xs[1..])
  }

  function ProdReal(xs: seq<real>): real
  {
    if |xs| == 0 then 1.0 else xs[0] * ProdReal(xs[1..])
  }

  /** `[f(x) for x in xs]` for an f that may raise: every result in order,
      or the error of the first element that raises. */
  function MapResult<A, B>(xs: seq<A>, f: A -> Result<B>): (r: Result<seq<B>>)
    ensures r.Ok? <==> forall k :: 0 <= k < |xs| ==> f(xs[k]).Ok?
    ensures r.Ok? ==> |r.value| == |xs|
    ensures r.Ok? ==> forall k :: 0 <= k < |xs| ==> r.value[k] == f(xs[k]).value
    ensures r.Err? ==> exists k :: 0 <= k < |xs| && f(xs[k]) == Err(r.error) &&
                                   forall j :: 0 <= j < k ==> f(xs[j]).Ok?
  {
    if |xs| == 0 then Ok([])
    else
      var head := f(xs[0]);
      if head.Err? then Err(head.error)
      else
        var tail := MapResult(xs[1..], f);
        if tail.Err? then
          var k :| 0 <= k < |xs[1..]| && f(xs[1..][k]) == Err(tail.error) &&
            forall j :: 0 <= j < k ==> f(xs[1..][j]).Ok?;
          assert f(xs[k + 1]) == Err(tail.error);
          assert forall j :: 1 <= j < k + 1 ==> f(xs[j]) == f(xs[1..][j - 1]);
          Err(tail.error)
        else Ok([head.value] + tail.value)
  }

  lemma {:induction false} ProdPositive(xs: seq<int>)
    requires forall i :: 0 <= i < |xs| ==> xs[i] >= 1
    ensures Prod(xs) >= 1
  {
    if |xs| > 0 {
      ProdPositive(xs[1..]);
    }
  }

  /** The position that Python's `xs[i]` denotes in a list of length `len`,
      counting negative indices from the end; None where Python raises
      IndexError. */
  function PyIndex(i: int, len: nat): (r: Option<nat>)
    ensures r.Some? <==> -(len as int) <= i < len
    ensures r.Some? ==> r.value < len && (r.value == i || r.value == len + i)
  {
    if 0 <= i < len then Some(i)
    else if -(len as int) <= i < 0 then Some(len + i)
    else None
  }

  /** No value occurs twice. */
  predicate Distinct<T(==)>(xs: seq<T>)
  {
    forall i, j :: 0 <= i < j < |xs| ==> xs[i] != xs[j]
  }

  function Lengths<T>(axes: seq<seq<T>>): (r: seq<int>)
    ensures |r| == |axes|
    ensures forall i :: 0 <= i < |axes| ==> r[i] == |axes[i]|
  {
    if |axes| == 0 then [] else [|axes[0]|] + Lengths(axes[1..])
  }

  /** `[[h] + t for h in heads for t in tails]`: every head in order, each
      followed by every tail in order. */
  function PrependEach<T>(heads: seq<T>, tails: seq<seq<T>>): (r: seq<seq<T>>)
    ensures |r| == |heads| * |tails|
    ensures forall t :: t in r ==> |t| > 0 && t[0] in heads && t[1..] in tails
    ensures |heads| > 0 && |tails| > 0 ==> r[0] == [heads[0]] + tails[0]
  {
    if |heads| == 0 then []
    else
      var first := seq(|tails|, j requires 0 <= j < |tails| => [heads[0]] + tails[j]);
      var rest := PrependEach(heads[1..], tails);
      assert |heads| * |tails| == |tails| + (|heads| - 1) * |tails|;
      assert forall t :: t in first ==> |t| > 0 && t[0] in heads && t[1..] in tails by {
        forall t | t in first
          ensures |t| > 0 && t[0] in heads && t[1..] in tails
        {
          var j :| 0 <= j < |first| && first[j] == t;
          assert t[1..] == tails[j];
        }
      }
      first + rest
  }

  lemma {:induction false} PrependEachComplete<T>(heads: seq<T>, tails: seq<seq<T>>, h: T, t: seq<T>)
    requires h in heads && t in tails
    ensures [h] + t in PrependEach(heads, tails)
  {
    var rest := PrependEach(heads[1..], tails);
    if h == heads[0] {
      var j :| 0 <= j < |tails| && tails[j] == t;
      assert PrependEach(heads, tails)[j] == [h] + t;
    } else {
      PrependEachComplete(heads[1..], tails, h, t);
      assert PrependEach(heads, tails) == PrependEach(heads, tails)[..|tails|] + rest;
    }
  }

  lemma {:induction false} PrependEachDistinct<T>(heads: seq<T>, tails: seq<seq<T>>)
    requires Distinct(heads) && Distinct(tails)
    ensures Distinct(PrependEach(heads, tails))
  {
    if |heads| > 0 {
      var r := PrependEach(heads, tails);
      var rest := PrependEach(heads[1..], tails);
      PrependEachDistinct(heads[1..], tails);
      assert r[|tails|..] == rest;
      forall a, b | 0 <= a < b < |r|
        ensures r[a] != r[b]
      {
        if b < |tails| {
          assert r[a][1..] == tails[a] && r[b][1..] == tails[b];
        } else if a < |tails| {
          assert r[a][0] == heads[0];
          assert r[b] in rest;
          assert r[b][0] in heads[1..];
        } else {
          assert r[a] == rest[a - |tails|] && r[b] == rest[b - |tails|];
        }
      }
    }
  }

  /** `list(itertools.product(*axes))`: the cartesian product, the first axis
      varying slowest. */
  function Cartesian<T>(axes: seq<seq<T>>): (r: seq<seq<T>>)
    ensures |r| == Prod(Lengths(axes))
    ensures forall t :: t in r ==>
      |t| == |axes| && forall i :: 0 <= i < |axes| ==> t[i] in axes[i]
  {
    if |axes| == 0 then [[]]
    else
      var tails := Cartesian(axes[1..]);
      var r := PrependEach(axes[0], tails);
      assert Lengths(axes) == [|axes[0]|] + Lengths(axes[1..]);
      assert forall t :: t in r ==>
        |t| == |axes| && forall i :: 0 <= i < |axes| ==> t[i] in axes[i]
      by {
        forall t | t in r
          ensures |t| == |axes| && forall i :: 0 <= i < |axes| ==> t[i] in axes[i]
        {
          assert t[1..] in tails;
          assert forall i :: 1 <= i < |axes| ==> t[i] == t[1..][i - 1];
        }
      }
      r
  }

  /** Every tuple drawing position i from axis i occurs in the product. */
  lemma {:induction false} CartesianComplete<T>(axes: seq<seq<T>>, t: seq<T>)
    requires |t| == |axes|
    requires forall i :: 0 <= i < |axes| ==> t[i] in axes[i]
    ensures t in Cartesian(axes)
  {
    if |axes| > 0 {
      CartesianComplete(axes[1..], t[1..]);
      PrependEachComplete(axes[0], Cartesian(axes[1..]), t[0], t[1..]);
      assert [t[0]] + t[1..] == t;
    }
  }

  /** With duplicate-free axes the product has no repeated tuple. */
  lemma {:induction false} CartesianDistinct<T>(axes: seq<seq<T>>)
    requires forall i :: 0 <= i < |axes| ==> Distinct(axes[i])
    ensures Distinct(Cartesian(axes))
  {
    if |axes| > 0 {
      CartesianDistinct(axes[1..]);
      PrependEachDistinct(axes[0], Cartesian(axes[1..]));
    }
  }

  /** When every axis is non-empty, the product starts with the tuple of
      first entries. */
  lemma {:induction false} CartesianFirst<T>(axes: seq<seq<T>>)
    requires forall i :: 0 <= i < |axes| ==> |axes[i]| > 0
    ensures |Cartesian(axes)| > 0
    ensures |Cartesian(axes)[0]| == |axes|
    ensures forall i :: 0 <= i < |axes| ==> Cartesian(axes)[0][i] == axes[i][0]
  {
    if |axes| > 0 {
      CartesianFirst(axes[1..]);
      var tails := Cartesian(axes[1..]);
      assert Cartesian(axes)[0] == [axes[0][0]] + tails[0];
    }
  }

  /** x multiplied by each factor in turn, each factor on the left. */
  function ScaleBy(x: real, fs: seq<real>): real
    decreases |fs|
  {
    if |fs| == 0 then x else ScaleBy(fs[0] * x, fs[1..])
  }

  /** Multiplying in turn is multiplying by the product. */
  lemma {:induction false} ScaleByProduct(x: real, fs: seq<real>)
    ensures ScaleBy(x, fs) == x * ProdReal(fs)
    decreases |fs|
  {
    if |fs| > 0 {
      ScaleByProduct(fs[0] * x, fs[1..]);
      assert (fs[0] * x) * ProdReal(fs[1..]) == x * (fs[0] * ProdReal(fs[1..]));
    }
  }
  /** A value scaled in turn by fs is the product of the value and fs. */
  lemma ScaledIsProduct(y: real, x: real, fs: seq<real>)
    requires y == ScaleBy(x, fs)
    ensures y == ProdReal([x] + fs)
  {
    ScaleByProduct(x, fs);
    assert ([x] + fs)[1..] == fs;
  }

}
