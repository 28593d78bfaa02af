/** The reduce side of the skew-aware join (justshares.py): decoding the
    values that reach a reducer, splitting them into the three relations,
    and joining them with the chained hash join `doubleHashJoin`, which is
    shown equal to the plain nested-loop join. */
module PartitionJoin {

  import opened Base
  import opened Text
  import Routing

  /** A tuple as the reducer sees it: the text of every attribute. */
  type Tuple = seq<string>

  /** Every tuple of the table has a column i. */
  predicate HasColumn(t: seq<Tuple>, i: nat)
  {
    forall s :: s in t ==> i < |s|
  }

  /** Column i of every tuple, in table order. */
  function Column(t: seq<Tuple>, i: nat): (r: seq<string>)
    requires HasColumn(t, i)
    ensures |r| == |t|
    ensures forall j :: 0 <= j < |t| ==> r[j] == t[j][i]
  {
    seq(|t|, j requires 0 <= j < |t| => t[j][i])
  }

  // ---------------------------------------------------------------------
  // Hash buckets

  /** The items whose key is k, in order: the bucket of a
      `defaultdict(list)` filled by appending each item under its key. */
  function Select<T>(items: seq<T>, keys: seq<string>, k: string): (r: seq<T>)
    requires |items| == |keys|
    ensures |r| <= |items|
  {
    if |items| == 0 then []
    else (if keys[0] == k then [items[0]] else []) + Select(items[1..], keys[1..], k)
  }

  /** Bucketing a concatenation concatenates the buckets. */
  lemma {:induction false} SelectConcat<T>(a: seq<T>, ka: seq<string>, b: seq<T>, kb: seq<string>, k: string)
    requires |a| == |ka| && |b| == |kb|
    ensures Select(a + b, ka + kb, k) == Select(a, ka, k) + Select(b, kb, k)
  {
    if |a| > 0 {
      SelectConcat(a[1..], ka[1..], b, kb, k);
      assert (a + b)[0] == a[0] && (ka + kb)[0] == ka[0];
      assert (a + b)[1..] == a[1..] + b;
      assert (ka + kb)[1..] == ka[1..] + kb;
    } else {
      assert a + b == b && ka + kb == kb;
    }
  }

  /** An item is in the bucket of k exactly when it sits at a position
      whose key is k. */
  lemma {:induction false} SelectMember<T>(items: seq<T>, keys: seq<string>, k: string, x: T)
    requires |items| == |keys|
    ensures x in Select(items, keys, k) <==> exists j :: 0 <= j < |items| && items[j] == x && keys[j] == k
  {
    if |items| > 0 {
      SelectMember(items[1..], keys[1..], k, x);
      if x in Select(items[1..], keys[1..], k) {
        var j :| 0 <= j < |items[1..]| && items[1..][j] == x && keys[1..][j] == k;
        assert items[j + 1] == x && keys[j + 1] == k;
      }
      if exists j :: 0 <= j < |items| && items[j] == x && keys[j] == k {
        var j :| 0 <= j < |items| && items[j] == x && keys[j] == k;
        if j > 0 {
          assert items[1..][j - 1] == x && keys[1..][j - 1] == k;
        }
      }
    }
  }

  /** When every key is c, the bucket of k is everything or nothing. */
  lemma {:induction false} SelectUniform<T>(items: seq<T>, keys: seq<string>, c: string, k: string)
    requires |items| == |keys|
    requires forall j :: 0 <= j < |keys| ==> keys[j] == c
    ensures Select(items, keys, k) == if c == k then items else []
  {
    if |items| > 0 {
      SelectUniform(items[1..], keys[1..], c, k);
      assert [items[0]] + items[1..] == items;
    }
  }

  /** The bucket of k, or the empty list for a key never seen. */
  function Get<T>(h: map<string, seq<T>>, k: string): seq<T>
  {
    if k in h then h[k] else []
  }

  /** Appending an item appends it to its own bucket only. */
  lemma SelectSnoc<T>(items: seq<T>, keys: seq<string>, n: nat, k: string)
    requires |items| == |keys| && n < |items|
    ensures Select(items[..n + 1], keys[..n + 1], k) ==
      Select(items[..n], keys[..n], k) + (if keys[n] == k then [items[n]] else [])
  {
    SelectConcat(items[..n], keys[..n], [items[n]], [keys[n]], k);
    assert items[..n + 1] == items[..n] + [items[n]];
    assert keys[..n + 1] == keys[..n] + [keys[n]];
  }

  /** `for s in items: h[key(s)].append(s)`: every lookup answers the
      bucket of its key. */
  method BuildIndex<T>(items: seq<T>, keys: seq<string>) returns (h: map<string, seq<T>>)
    requires |items| == |keys|
    ensures forall k :: Get(h, k) == Select(items, keys, k)
  {
    h := map[];
    var n := 0;
    while n < |items|
      invariant 0 <= n <= |items|
      invariant forall k :: Get(h, k) == Select(items[..n], keys[..n], k)
    {
      var next := h[keys[n] := Get(h, keys[n]) + [items[n]]];
      forall k
        ensures Get(next, k) == Select(items[..n + 1], keys[..n + 1], k)
      {
        SelectSnoc(items, keys, n, k);
      }
      h := next;
      n := n + 1;
    }
    assert items[..n] == items && keys[..n] == keys;
  }

  // ---------------------------------------------------------------------
  // Probing

  /** Every item paired with u. */
  function Attach<T, U>(ts: seq<T>, u: U): (r: seq<(T, U)>)
    ensures |r| == |ts|
    ensures forall j :: 0 <= j < |ts| ==> r[j] == (ts[j], u)
  {
    seq(|ts|, j requires 0 <= j < |ts| => (ts[j], u))
  }

  /** `[(t, u) for u in probes for t in h[key(u)]]` with the lookups
      answered by the index h. */
  function ProbeWith<T, U>(h: map<string, seq<T>>, probes: seq<U>, probeKeys: seq<string>): seq<(T, U)>
    requires |probes| == |probeKeys|
  {
    if |probes| == 0 then []
    else Attach(Get(h, probeKeys[0]), probes[0]) + ProbeWith(h, probes[1..], probeKeys[1..])
  }

  /** The same probe with every lookup answered by the bucket itself. */
  function Probe<T, U>(probes: seq<U>, probeKeys: seq<string>, items: seq<T>, keys: seq<string>): seq<(T, U)>
    requires |probes| == |probeKeys| && |items| == |keys|
  {
    if |probes| == 0 then []
    else Attach(Select(items, keys, probeKeys[0]), probes[0]) + Probe(probes[1..], probeKeys[1..], items, keys)
  }

  /** Probing an index built from the items is probing the buckets. */
  lemma {:induction false} ProbeWithIndex<T, U>(h: map<string, seq<T>>, probes: seq<U>, probeKeys: seq<string>, items: seq<T>, keys: seq<string>)
    requires |probes| == |probeKeys| && |items| == |keys|
    requires forall k :: Get(h, k) == Select(items, keys, k)
    ensures ProbeWith(h, probes, probeKeys) == Probe(probes, probeKeys, items, keys)
  {
    if |probes| > 0 {
      ProbeWithIndex(h, probes[1..], probeKeys[1..], items, keys);
    }
  }

  // ---------------------------------------------------------------------
  // The nested-loop join

  /** `[(r1, r2) for r1 in t1 if r1[i1] == r2[i2]]`. */
  function Inner(t1: seq<Tuple>, i1: nat, r2: Tuple, i2: nat): (r: seq<(Tuple, Tuple)>)
    requires HasColumn(t1, i1) && i2 < |r2|
    ensures forall p :: p in r ==> p.1 == r2
  {
    if |t1| == 0 then []
    else (if t1[0][i1] == r2[i2] then [(t1[0], r2)] else []) + Inner(t1[1..], i1, r2, i2)
  }

  /** `[(r1, r2) for r2 in t2 if r2[i3] == k for r1 in t1 if r1[i1] == r2[i2]]`. */
  function Middle(t1: seq<Tuple>, i1: nat, t2: seq<Tuple>, i2: nat, i3: nat, k: string): seq<(Tuple, Tuple)>
    requires HasColumn(t1, i1) && HasColumn(t2, i2) && HasColumn(t2, i3)
  {
    if |t2| == 0 then []
    else (if t2[0][i3] == k then Inner(t1, i1, t2[0], i2) else []) + Middle(t1, i1, t2[1..], i2, i3, k)
  }

  /** The nested-loop join: every ((r1, r2), r3) with r1[i1] == r2[i2] and
      r2[i3] == r3[i3], r3 varying slowest, then r2, then r1. */
  function Nested(t1: seq<Tuple>, i1: nat, t2: seq<Tuple>, i2: nat, t3: seq<Tuple>, i3: nat): seq<((Tuple, Tuple), Tuple)>
    requires HasColumn(t1, i1) && HasColumn(t2, i2) && HasColumn(t2, i3) && HasColumn(t3, i3)
  {
    if |t3| == 0 then []
    else Attach(Middle(t1, i1, t2, i2, i3, t3[0][i3]), t3[0]) + Nested(t1, i1, t2, i2, t3[1..], i3)
  }

  /** The pair (r1, r2) is in the inner loop exactly when r1 is in t1 and
      matches r2. */
  lemma {:induction false} InnerMember(t1: seq<Tuple>, i1: nat, r2: Tuple, i2: nat, p: (Tuple, Tuple))
    requires HasColumn(t1, i1) && i2 < |r2|
    ensures p in Inner(t1, i1, r2, i2) <==> p.0 in t1 && p.1 == r2 && p.0[i1] == r2[i2]
  {
    if |t1| > 0 {
      InnerMember(t1[1..], i1, r2, i2, p);
      assert p.0 in t1 <==> p.0 == t1[0] || p.0 in t1[1..];
    }
  }

  /** The pair (r1, r2) is in the middle loop for k exactly when r1 and r2
      are in their tables, match, and r2[i3] is k. */
  lemma {:induction false} MiddleMember(t1: seq<Tuple>, i1: nat, t2: seq<Tuple>, i2: nat, i3: nat, k: string, p: (Tuple, Tuple))
    requires HasColumn(t1, i1) && HasColumn(t2, i2) && HasColumn(t2, i3)
    ensures p in Middle(t1, i1, t2, i2, i3, k) <==>
      p.0 in t1 && p.1 in t2 && p.0[i1] == p.1[i2] && p.1[i3] == k
  {
    if |t2| > 0 {
      MiddleMember(t1, i1, t2[1..], i2, i3, k, p);
      InnerMember(t1, i1, t2[0], i2, p);
      assert p.1 in t2 <==> p.1 == t2[0] || p.1 in t2[1..];
    }
  }

  /** A triple is in the join exactly when each tuple is in its table and
      both join conditions hold. */
  lemma {:induction false} NestedMember(t1: seq<Tuple>, i1: nat, t2: seq<Tuple>, i2: nat, t3: seq<Tuple>, i3: nat, x: ((Tuple, Tuple), Tuple))
    requires HasColumn(t1, i1) && HasColumn(t2, i2) && HasColumn(t2, i3) && HasColumn(t3, i3)
    ensures x in Nested(t1, i1, t2, i2, t3, i3) <==>
      x.0.0 in t1 && x.0.1 in t2 && x.1 in t3 &&
      x.0.0[i1] == x.0.1[i2] && x.0.1[i3] == x.1[i3]
  {
    if |t3| > 0 {
      NestedMember(t1, i1, t2, i2, t3[1..], i3, x);
      var block := Middle(t1, i1, t2, i2, i3, t3[0][i3]);
      MiddleMember(t1, i1, t2, i2, i3, t3[0][i3], x.0);
      assert x in Attach(block, t3[0]) <==> x.0 in block && x.1 == t3[0];
      assert x.1 in t3 <==> x.1 == t3[0] || x.1 in t3[1..];
    }
  }

  // ---------------------------------------------------------------------
  // The hash join equals the nested-loop join

  /** The first hash join, `[(r1, r2) for r2 in t2 for r1 in h[r2[i2]]]`,
      written with the buckets. */
  function Pairs(t1: seq<Tuple>, i1: nat, t2: seq<Tuple>, i2: nat): seq<(Tuple, Tuple)>
    requires HasColumn(t1, i1) && HasColumn(t2, i2)
  {
    Probe(t2, Column(t2, i2), t1, Column(t1, i1))
  }

  /** Pairing distributes over concatenation. */
  lemma AttachConcat<T, U>(a: seq<T>, b: seq<T>, u: U)
    ensures Attach(a + b, u) == Attach(a, u) + Attach(b, u)
  {
  }

  /** The column of a table's tail is the tail of its column. */
  lemma ColumnTail(t: seq<Tuple>, i: nat)
    requires HasColumn(t, i) && |t| > 0
    ensures Column(t, i)[1..] == Column(t[1..], i)
    ensures Column(t, i)[0] == t[0][i]
  {
  }

  /** A bucket of the first table paired with r2 is the inner loop for r2. */
  lemma {:induction false} InnerIsBucket(t1: seq<Tuple>, i1: nat, r2: Tuple, i2: nat)
    requires HasColumn(t1, i1) && i2 < |r2|
    ensures Inner(t1, i1, r2, i2) == Attach(Select(t1, Column(t1, i1), r2[i2]), r2)
  {
    if |t1| > 0 {
      InnerIsBucket(t1[1..], i1, r2, i2);
      ColumnTail(t1, i1);
      var rest := Select(t1[1..], Column(t1[1..], i1), r2[i2]);
      var head: seq<Tuple> := if t1[0][i1] == r2[i2] then [t1[0]] else [];
      assert Select(t1, Column(t1, i1), r2[i2]) == head + rest;
      AttachConcat(head, rest, r2);
    }
  }

  /** The first hash join lists, for each r2 in order, its inner loop. */
  function PairsByR2(t1: seq<Tuple>, i1: nat, t2: seq<Tuple>, i2: nat): (r: seq<(Tuple, Tuple)>)
    requires HasColumn(t1, i1) && HasColumn(t2, i2)
    ensures forall p :: p in r ==> p.1 in t2
  {
    if |t2| == 0 then []
    else
      var rest := PairsByR2(t1, i1, t2[1..], i2);
      Inner(t1, i1, t2[0], i2) + rest
  }

  lemma {:induction false} PairsUnfold(t1: seq<Tuple>, i1: nat, t2: seq<Tuple>, i2: nat)
    requires HasColumn(t1, i1) && HasColumn(t2, i2)
    ensures Pairs(t1, i1, t2, i2) == PairsByR2(t1, i1, t2, i2)
  {
    if |t2| > 0 {
      PairsUnfold(t1, i1, t2[1..], i2);
      assert Column(t2, i2)[1..] == Column(t2[1..], i2);
      InnerIsBucket(t1, i1, t2[0], i2);
    }
  }

  /** Column i3 of the second tuple of every pair. */
  function SecondColumn(ps: seq<(Tuple, Tuple)>, i3: nat): (r: seq<string>)
    requires forall p :: p in ps ==> i3 < |p.1|
    ensures |r| == |ps|
    ensures forall j :: 0 <= j < |ps| ==> r[j] == ps[j].1[i3]
  {
    seq(|ps|, j requires 0 <= j < |ps| => ps[j].1[i3])
  }

  /** The column of a concatenation is the concatenation of the columns. */
  lemma SecondColumnConcat(a: seq<(Tuple, Tuple)>, b: seq<(Tuple, Tuple)>, i3: nat)
    requires forall p :: p in a ==> i3 < |p.1|
    requires forall p :: p in b ==> i3 < |p.1|
    ensures SecondColumn(a + b, i3) == SecondColumn(a, i3) + SecondColumn(b, i3)
  {
  }

  /** The bucket of k in the second hash index is the middle loop for k. */
  lemma {:induction false} PairBucket(t1: seq<Tuple>, i1: nat, t2: seq<Tuple>, i2: nat, i3: nat, k: string)
    requires HasColumn(t1, i1) && HasColumn(t2, i2) && HasColumn(t2, i3)
    ensures var ps := PairsByR2(t1, i1, t2, i2);
      Select(ps, SecondColumn(ps, i3), k) == Middle(t1, i1, t2, i2, i3, k)
  {
    if |t2| > 0 {
      PairBucket(t1, i1, t2[1..], i2, i3, k);
      var inner := Inner(t1, i1, t2[0], i2);
      var rest := PairsByR2(t1, i1, t2[1..], i2);
      var ps := PairsByR2(t1, i1, t2, i2);
      assert ps == inner + rest;
      SecondColumnConcat(inner, rest, i3);
      SelectConcat(inner, SecondColumn(inner, i3), rest, SecondColumn(rest, i3), k);
      SelectUniform(inner, SecondColumn(inner, i3), t2[0][i3], k);
    }
  }

  /** The second hash join, probed with the buckets, is the nested-loop
      join. */
  lemma {:induction false} ProbeIsNested(t1: seq<Tuple>, i1: nat, t2: seq<Tuple>, i2: nat, t3: seq<Tuple>, i3: nat)
    requires HasColumn(t1, i1) && HasColumn(t2, i2) && HasColumn(t2, i3) && HasColumn(t3, i3)
    ensures var ps := PairsByR2(t1, i1, t2, i2);
      Probe(t3, Column(t3, i3), ps, SecondColumn(ps, i3)) == Nested(t1, i1, t2, i2, t3, i3)
  {
    if |t3| > 0 {
      ProbeIsNested(t1, i1, t2, i2, t3[1..], i3);
      assert Column(t3, i3)[1..] == Column(t3[1..], i3);
      PairBucket(t1, i1, t2, i2, i3, t3[0][i3]);
    }
  }

  /** `doubleHashJoin(t1, i1, t2, i2, t3, i3)`: hash the first table on
      column i1, probe it with the second table's column i2, hash the pairs
      on their second tuple's column i3 and probe that with the third
      table's column i3. The result is the nested-loop join, in its
      order. */
  method DoubleHashJoin(t1: seq<Tuple>, i1: nat, t2: seq<Tuple>, i2: nat, t3: seq<Tuple>, i3: nat)
    returns (out: seq<((Tuple, Tuple), Tuple)>)
    requires HasColumn(t1, i1) && HasColumn(t2, i2) && HasColumn(t2, i3) && HasColumn(t3, i3)
    ensures out == Nested(t1, i1, t2, i2, t3, i3)
  {
    var h := BuildIndex(t1, Column(t1, i1));
    var t12 := ProbeWith(h, t2, Column(t2, i2));
    ProbeWithIndex(h, t2, Column(t2, i2), t1, Column(t1, i1));
    PairsUnfold(t1, i1, t2, i2);
    assert t12 == PairsByR2(t1, i1, t2, i2);
    var h1 := BuildIndex(t12, SecondColumn(t12, i3));
    out := ProbeWith(h1, t3, Column(t3, i3));
    ProbeWithIndex(h1, t3, Column(t3, i3), t12, SecondColumn(t12, i3));
    ProbeIsNested(t1, i1, t2, i2, t3, i3);
  }

  // ---------------------------------------------------------------------
  // Decoding what reaches a reducer

  /** `tokens = val.split(":")`, `int(tokens[0])`, `tokens[1].split("+")`:
      ValueError when the relation number is not an integer, IndexError
      when there is no colon; text after a second colon is dropped. */
  function DecodeValue(v: string): (r: Result<(int, Tuple)>)
    ensures r.Ok? ==> |r.value.1| >= 1
    ensures ParseInt(Split(v, ":")[0]).Err? ==> r == Err(ValueError)
    ensures ParseInt(Split(v, ":")[0]).Ok? ==> (r.Err? <==> ':' !in v)
    ensures r.Err? ==> r.error == ValueError || r.error == IndexError
  {
    var tokens := Split(v, ":");
    var rel := ParseInt(tokens[0]);
    if rel.Err? then Err(rel.error)
    else if |tokens| < 2 then
      assert ':' !in v by { NoSeparatorFound(v, ":"); }
      Err(IndexError)
    else
      assert ':' in v by { SeparatorFound(tokens, ":"); }
      Ok((rel.value, Split(tokens[1], "+")))
  }

  /** A text that splits into one piece holds no separator. */
  lemma NoSeparatorFound(v: string, sep: string)
    requires |sep| == 1 && |Split(v, sep)| < 2
    ensures sep[0] !in v
  {
    var t := Split(v, sep);
    assert Join(t, sep) == t[0];
  }

  /** A text that splits into several pieces holds the separator. */
  lemma SeparatorFound(tokens: seq<string>, sep: string)
    requires |sep| == 1 && |tokens| >= 2
    ensures sep[0] in Join(tokens, sep)
  {
    var j := Join(tokens, sep);
    assert j == tokens[0] + sep + Join(tokens[1..], sep);
    assert j[|tokens[0]|] == sep[0];
  }

  /** Decoding the mapper's value text gives back the relation and the
      tuple, when no attribute holds `:` or `+` and the tuple is not
      empty. */
  lemma DecodeValueText(rel: int, tuple: Tuple)
    requires |tuple| >= 1
    requires forall i :: 0 <= i < |tuple| ==> ':' !in tuple[i] && '+' !in tuple[i]
    ensures DecodeValue(Routing.ValueText(rel, tuple)) == Ok((rel, tuple))
  {
    var head := IntToString(rel);
    var body := Join(tuple, "+");
    IntToStringAvoids(rel, ':');
    JoinAvoids(tuple, "+", ':');
    JoinPrefix(head, [body], ":");
    assert Routing.ValueText(rel, tuple) == Join([head, body], ":");
    SplitJoin([head, body], ":");
    ParseIntToString(rel);
    SplitJoin(tuple, "+");
  }

  /** The tuples of relation n, in arrival order. */
  function Table(decoded: seq<(int, Tuple)>, n: int): (r: seq<Tuple>)
    ensures forall s :: s in r <==> (n, s) in decoded
  {
    if |decoded| == 0 then []
    else
      var rest := Table(decoded[1..], n);
      assert forall x :: x in decoded <==> x == decoded[0] || x in decoded[1..];
      (if decoded[0].0 == n then [decoded[0].1] else []) + rest
  }

  /** The decoded tuples are wide enough for the join columns the reducer
      reads: column 2 of relation 1, columns 2 and 3 of relation 2 and
      column 3 of relation 3. */
  predicate WideEnough(d: (int, Tuple))
  {
    (d.0 == 1 ==> |d.1| > 2) && (d.0 == 2 ==> |d.1| > 3) && (d.0 == 3 ==> |d.1| > 3)
  }

  /** Every value that decodes is wide enough. */
  predicate Joinable(values: seq<string>)
  {
    forall v :: v in values && DecodeValue(v).Ok? ==> WideEnough(DecodeValue(v).value)
  }

  /** What holds of every result of f holds of every value a successful
      MapResult returns. */
  lemma MapResultAll<A, B>(xs: seq<A>, f: A -> Result<B>, ys: seq<B>, P: B -> bool)
    requires MapResult(xs, f) == Ok(ys)
    requires forall x :: x in xs && f(x).Ok? ==> P(f(x).value)
    ensures forall y :: y in ys ==> P(y)
  {
    forall y | y in ys
      ensures P(y)
    {
      var j :| 0 <= j < |ys| && ys[j] == y;
      assert xs[j] in xs;
    }
  }

  /** The three relations' tables of the decoded values, each wide enough
      for its join columns. */
  lemma TablesJoinable(values: seq<string>, decoded: seq<(int, Tuple)>)
    requires Joinable(values)
    requires MapResult(values, DecodeValue) == Ok(decoded)
    ensures HasColumn(Table(decoded, 1), 2)
    ensures HasColumn(Table(decoded, 2), 2) && HasColumn(Table(decoded, 2), 3)
    ensures HasColumn(Table(decoded, 3), 3)
  {
    MapResultAll(values, DecodeValue, decoded, WideEnough);
  }

  /** The join a reducer computes over the values of its bucket: relations
      1 and 2 on column 2, then relation 3 on column 3. */
  function BucketJoin(decoded: seq<(int, Tuple)>): seq<((Tuple, Tuple), Tuple)>
    requires HasColumn(Table(decoded, 1), 2)
    requires HasColumn(Table(decoded, 2), 2) && HasColumn(Table(decoded, 2), 3)
    requires HasColumn(Table(decoded, 3), 3)
  {
    Nested(Table(decoded, 1), 2, Table(decoded, 2), 2, Table(decoded, 3), 3)
  }

  /** `countReducer`: the number of joined triples in the bucket; values of
      relations other than 1, 2 and 3 take no part. The first value that
      does not decode stops the reducer with its error. */
  method CountReducer(values: seq<string>) returns (r: Result<nat>)
    requires Joinable(values)
    ensures r.Ok? <==> forall i :: 0 <= i < |values| ==> DecodeValue(values[i]).Ok?
    ensures r.Ok? ==> var decoded := MapResult(values, DecodeValue).value;
      HasColumn(Table(decoded, 1), 2) && HasColumn(Table(decoded, 2), 2) &&
      HasColumn(Table(decoded, 2), 3) && HasColumn(Table(decoded, 3), 3) &&
      r.value == |BucketJoin(decoded)|
  {
    var d := MapResult(values, DecodeValue);
    if d.Err? {
      return Err(d.error);
    }
    TablesJoinable(values, d.value);
    var joined := DoubleHashJoin(Table(d.value, 1), 2, Table(d.value, 2), 2, Table(d.value, 3), 3);
    r := Ok(|joined|);
  }

  /** `','.join(r1) + ' + ' + ','.join(r2) + ' + ' + ','.join(r3)`. */
  function RenderTriple(x: ((Tuple, Tuple), Tuple)): string
  {
    Join(x.0.0, ",") + " + " + Join(x.0.1, ",") + " + " + Join(x.1, ",")
  }

  /** Each triple rendered, in order. */
  function RenderAll(xs: seq<((Tuple, Tuple), Tuple)>): (r: seq<string>)
    ensures |r| == |xs|
    ensures forall i :: 0 <= i < |xs| ==> r[i] == RenderTriple(xs[i])
  {
    seq(|xs|, i requires 0 <= i < |xs| => RenderTriple(xs[i]))
  }

  /** `hashReducer`: one line per joined triple, in the join's order. */
  method HashReducer(values: seq<string>) returns (r: Result<seq<string>>)
    requires Joinable(values)
    ensures r.Ok? <==> forall i :: 0 <= i < |values| ==> DecodeValue(values[i]).Ok?
    ensures r.Ok? ==> var decoded := MapResult(values, DecodeValue).value;
      HasColumn(Table(decoded, 1), 2) && HasColumn(Table(decoded, 2), 2) &&
      HasColumn(Table(decoded, 2), 3) && HasColumn(Table(decoded, 3), 3) &&
      |r.value| == |BucketJoin(decoded)| &&
      forall i :: 0 <= i < |r.value| ==> r.value[i] == RenderTriple(BucketJoin(decoded)[i])
  {
    var d := MapResult(values, DecodeValue);
    if d.Err? {
      return Err(d.error);
    }
    TablesJoinable(values, d.value);
    var joined := DoubleHashJoin(Table(d.value, 1), 2, Table(d.value, 2), 2, Table(d.value, 3), 3);
    r := Ok(RenderAll(joined));
  }
}
