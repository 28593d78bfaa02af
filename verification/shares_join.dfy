/** Domination analysis over a relational schema and the per-relation cost
    terms derived from it (skew/sharesJoin.py).

    A schema has one row per relation and one entry per attribute; an entry
    1 marks an attribute the relation carries. The domination matrix has a
    cell per ordered pair of attributes: -1 when no relation carries both,
    1 when some relation carries both and some relation carries the row
    attribute without the column attribute, and 0 otherwise. */
module SharesJoin {

  import opened Base

  type Schema = seq<seq<int>>
  type Matrix = seq<seq<int>>

  /** What the matrix construction demands: at least one relation, and no
      row shorter than the first (which fixes the number of attributes). */
  predicate WellShaped(schema: Schema)
  {
    |schema| > 0 && forall r :: 0 <= r < |schema| ==> |schema[r]| >= |schema[0]|
  }

  /** Every row has an entry for every attribute. */
  predicate IsSquare(m: Matrix)
  {
    forall x :: 0 <= x < |m| ==> |m[x]| == |m|
  }

  /** Every entry is 0 or 1. */
  predicate Binary(schema: Schema)
  {
    forall r, a :: 0 <= r < |schema| && 0 <= a < |schema[r]| ==> schema[r][a] == 0 || schema[r][a] == 1
  }

  predicate Carries(row: seq<int>, a: int)
  {
    0 <= a < |row| && row[a] == 1
  }

  predicate Lacks(row: seq<int>, a: int)
  {
    0 <= a < |row| && row[a] == 0
  }

  /** One of the first k relations carries both x and y. */
  predicate CoOccurBefore(schema: Schema, k: int, x: int, y: int)
  {
    exists r :: 0 <= r < k && r < |schema| && Carries(schema[r], x) && Carries(schema[r], y)
  }

  /** One of the first k relations carries x but not y. */
  predicate EscapesBefore(schema: Schema, k: int, x: int, y: int)
  {
    exists r :: 0 <= r < k && r < |schema| && Carries(schema[r], x) && Lacks(schema[r], y)
  }

  predicate CoOccur(schema: Schema, x: int, y: int)
  {
    CoOccurBefore(schema, |schema|, x, y)
  }

  predicate Escapes(schema: Schema, x: int, y: int)
  {
    EscapesBefore(schema, |schema|, x, y)
  }

  /** The settled value of cell (x, y). */
  function Cell(schema: Schema, x: int, y: int): int
  {
    if !CoOccur(schema, x, y) then -1
    else if Escapes(schema, x, y) then 1
    else 0
  }

  function DominationMatrixOf(schema: Schema): (m: Matrix)
    requires |schema| > 0
    ensures |m| == |schema[0]| && IsSquare(m)
    ensures forall x, y :: 0 <= x < |m| && 0 <= y < |m| ==> m[x][y] == Cell(schema, x, y)
  {
    var n := |schema[0]|;
    seq(n, x requires 0 <= x < n => seq(n, y requires 0 <= y < n => Cell(schema, x, y)))
  }

  /** constructDominationMatrix: the matrix starts all -1; a first sweep
      over (attribute, relation, other attribute) writes 0 wherever the
      relation carries both; a second sweep turns a 0 into 1 wherever the
      relation carries the row attribute and lacks the column attribute. */
  method ConstructDominationMatrix(schema: Schema) returns (m: Matrix)
    requires WellShaped(schema)
    ensures |m| == |schema[0]| && IsSquare(m)
    ensures forall x, y :: 0 <= x < |m| && 0 <= y < |m| ==> -1 <= m[x][y] <= 1
    ensures forall x, y :: 0 <= x < |m| && 0 <= y < |m| ==>
      (m[x][y] != -1 <==> CoOccur(schema, x, y))
    ensures forall x, y :: 0 <= x < |m| && 0 <= y < |m| ==>
      (m[x][y] == 1 <==> CoOccur(schema, x, y) && Escapes(schema, x, y))
    ensures m == DominationMatrixOf(schema)
  {
    m := MarkCoOccurrence(schema);
    m := MarkDomination(schema, m);
    SameCells(m, DominationMatrixOf(schema));
  }

  /** Two square matrices of one size that agree on every cell are equal. */
  lemma SameCells(a: Matrix, b: Matrix)
    requires IsSquare(a) && IsSquare(b) && |a| == |b|
    requires forall x, y :: 0 <= x < |a| && 0 <= y < |a| ==> a[x][y] == b[x][y]
    ensures a == b
  {
    forall x | 0 <= x < |a|
      ensures a[x] == b[x]
    {
      assert forall y :: 0 <= y < |a| ==> a[x][y] == b[x][y];
    }
  }

  /** The first sweep: starting from all -1, a cell becomes 0 exactly when
      some relation carries both attributes. */
  method MarkCoOccurrence(schema: Schema) returns (m: Matrix)
    requires WellShaped(schema)
    ensures |m| == |schema[0]| && IsSquare(m)
    ensures forall x, y :: 0 <= x < |m| && 0 <= y < |m| ==>
      m[x][y] == (if CoOccur(schema, x, y) then 0 else -1)
  {
    var n := |schema[0]|;
    m := seq(n, _ => seq(n, _ => -1));
    var cur := 0;
    while cur < n
      invariant 0 <= cur <= n
      invariant |m| == n && IsSquare(m)
      invariant forall x, y :: 0 <= x < n && 0 <= y < n ==>
        m[x][y] == (if x < cur && CoOccur(schema, x, y) then 0 else -1)
    {
      var idx := 0;
      while idx < |schema|
        invariant 0 <= idx <= |schema|
        invariant |m| == n && IsSquare(m)
        invariant forall x, y :: 0 <= x < n && x != cur && 0 <= y < n ==>
          m[x][y] == (if x < cur && CoOccur(schema, x, y) then 0 else -1)
        invariant forall y :: 0 <= y < n ==>
          m[cur][y] == (if CoOccurBefore(schema, idx, cur, y) then 0 else -1)
      {
        var rel := schema[idx];
        var other := 0;
        while other < n
          invariant 0 <= other <= n
          invariant |m| == n && IsSquare(m)
          invariant forall x, y :: 0 <= x < n && x != cur && 0 <= y < n ==>
            m[x][y] == (if x < cur && CoOccur(schema, x, y) then 0 else -1)
          invariant forall y :: 0 <= y < n ==>
            m[cur][y] == (if CoOccurBefore(schema, idx, cur, y) || (y < other && rel[cur] == 1 && rel[y] == 1) then 0 else -1)
        {
          if rel[cur] == 1 && rel[other] == 1 {
            m := m[cur := m[cur][other := 0]];
          }
          other := other + 1;
        }
        CoOccurStep(schema, idx, cur, n);
        idx := idx + 1;
      }
      cur := cur + 1;
    }
  }

  /** The second sweep: a 0 cell becomes 1 exactly when some relation
      carries the row attribute and lacks the column attribute. */
  method MarkDomination(schema: Schema, m0: Matrix) returns (m: Matrix)
    requires WellShaped(schema)
    requires |m0| == |schema[0]| && IsSquare(m0)
    requires forall x, y :: 0 <= x < |m0| && 0 <= y < |m0| ==>
      m0[x][y] == (if CoOccur(schema, x, y) then 0 else -1)
    ensures |m| == |schema[0]| && IsSquare(m)
    ensures forall x, y :: 0 <= x < |m| && 0 <= y < |m| ==> m[x][y] == Cell(schema, x, y)
  {
    var n := |schema[0]|;
    m := m0;
    var cur := 0;
    while cur < n
      invariant 0 <= cur <= n
      invariant |m| == n && IsSquare(m)
      invariant forall x, y :: 0 <= x < n && 0 <= y < n ==>
        m[x][y] == (if x < cur then Cell(schema, x, y) else if CoOccur(schema, x, y) then 0 else -1)
    {
      var idx := 0;
      while idx < |schema|
        invariant 0 <= idx <= |schema|
        invariant |m| == n && IsSquare(m)
        invariant forall x, y :: 0 <= x < n && x != cur && 0 <= y < n ==>
          m[x][y] == (if x < cur then Cell(schema, x, y) else if CoOccur(schema, x, y) then 0 else -1)
        invariant forall y :: 0 <= y < n ==>
          m[cur][y] == (if !CoOccur(schema, cur, y) then -1 else if EscapesBefore(schema, idx, cur, y) then 1 else 0)
      {
        var rel := schema[idx];
        var other := 0;
        while other < n
          invariant 0 <= other <= n
          invariant |m| == n && IsSquare(m)
          invariant forall x, y :: 0 <= x < n && x != cur && 0 <= y < n ==>
            m[x][y] == (if x < cur then Cell(schema, x, y) else if CoOccur(schema, x, y) then 0 else -1)
          invariant forall y :: 0 <= y < n ==>
            m[cur][y] == (if !CoOccur(schema, cur, y) then -1
                          else if EscapesBefore(schema, idx, cur, y) || (y < other && rel[cur] == 1 && rel[y] == 0) then 1
                          else 0)
        {
          if rel[cur] == 1 && rel[other] == 0 && m[cur][other] == 0 {
            m := m[cur := m[cur][other := 1]];
          }
          other := other + 1;
        }
        EscapesStep(schema, idx, cur, n);
        idx := idx + 1;
      }
      cur := cur + 1;
    }
  }

  lemma CoOccurStep(schema: Schema, k: int, x: int, n: int)
    requires WellShaped(schema) && 0 <= k < |schema| && n == |schema[0]| && 0 <= x < n
    ensures forall y :: 0 <= y < n ==>
      (CoOccurBefore(schema, k + 1, x, y) <==>
       CoOccurBefore(schema, k, x, y) || (schema[k][x] == 1 && schema[k][y] == 1))
  {
    forall y | 0 <= y < n
      ensures CoOccurBefore(schema, k + 1, x, y) <==>
              CoOccurBefore(schema, k, x, y) || (schema[k][x] == 1 && schema[k][y] == 1)
    {
      if schema[k][x] == 1 && schema[k][y] == 1 {
        assert Carries(schema[k], x) && Carries(schema[k], y);
      }
    }
  }

  lemma EscapesStep(schema: Schema, k: int, x: int, n: int)
    requires WellShaped(schema) && 0 <= k < |schema| && n == |schema[0]| && 0 <= x < n
    ensures forall y :: 0 <= y < n ==>
      (EscapesBefore(schema, k + 1, x, y) <==>
       EscapesBefore(schema, k, x, y) || (schema[k][x] == 1 && schema[k][y] == 0))
  {
    forall y | 0 <= y < n
      ensures EscapesBefore(schema, k + 1, x, y) <==>
              EscapesBefore(schema, k, x, y) || (schema[k][x] == 1 && schema[k][y] == 0)
    {
      if schema[k][x] == 1 && schema[k][y] == 0 {
        assert Carries(schema[k], x) && Lacks(schema[k], y);
      }
    }
  }

  /** Row attribute a dominates column attribute b in the matrix: the cell
      (a, b) is 1 and the cell (b, a) is 0. */
  predicate Dominates(m: Matrix, a: int, b: int)
    requires IsSquare(m)
  {
    0 <= a < |m| && 0 <= b < |m| && m[a][b] == 1 && m[b][a] == 0
  }

  predicate IsDominating(m: Matrix, a: int)
    requires IsSquare(m)
  {
    0 <= a < |m| && exists b :: 0 <= b < |m| && Dominates(m, a, b)
  }

  predicate IsDominated(m: Matrix, b: int)
    requires IsSquare(m)
  {
    0 <= b < |m| && exists a :: 0 <= a < |m| && Dominates(m, a, b)
  }

  function DominatingOf(m: Matrix): set<int>
    requires IsSquare(m)
  {
    set a | 0 <= a < |m| && IsDominating(m, a)
  }

  function DominatedOf(m: Matrix): set<int>
    requires IsSquare(m)
  {
    set b | 0 <= b < |m| && IsDominated(m, b)
  }

  /** The pair {a, b} has been visited by the scan over i <= j once it
      reaches row i, column j. */
  predicate Seen(i: int, j: int, a: int, b: int)
  {
    var lo := if a <= b then a else b;
    var hi := if a <= b then b else a;
    lo < i || (lo == i && hi < j)
  }

  /** inferDominatingAttrs: visits every pair i <= j once; a pair whose two
      cells are 1 and 0 contributes its row side as dominating and its
      column side as dominated, in whichever orientation; a pair with two 1s
      or with a -1 contributes nothing. The Python lists are deduplicated
      through a set, so they are modelled as sets. */
  method InferDominatingAttrs(m: Matrix) returns (dominating: set<int>, dominated: set<int>)
    requires IsSquare(m)
    ensures forall a :: a in dominating <==> 0 <= a < |m| && exists b :: 0 <= b < |m| && Dominates(m, a, b)
    ensures forall b :: b in dominated <==> 0 <= b < |m| && exists a :: 0 <= a < |m| && Dominates(m, a, b)
  {
    var n := |m|;
    dominating, dominated := {}, {};
    var i := 0;
    while i < n
      invariant 0 <= i <= n
      invariant forall a :: a in dominating <==>
        0 <= a < n && exists b :: 0 <= b < n && Seen(i, i, a, b) && Dominates(m, a, b)
      invariant forall b :: b in dominated <==>
        0 <= b < n && exists a :: 0 <= a < n && Seen(i, i, a, b) && Dominates(m, a, b)
    {
      var j := i;
      while j < n
        invariant i <= j <= n
        invariant forall a :: a in dominating <==>
          0 <= a < n && exists b :: 0 <= b < n && Seen(i, j, a, b) && Dominates(m, a, b)
        invariant forall b :: b in dominated <==>
          0 <= b < n && exists a :: 0 <= a < n && Seen(i, j, a, b) && Dominates(m, a, b)
      {
        ghost var before, beforeDominated := dominating, dominated;
        if m[i][j] == m[j][i] == 1 {
          // neither side is collected
        } else if m[i][j] == 1 && m[j][i] == 0 {
          dominating := dominating + {i};
          dominated := dominated + {j};
        } else if m[i][j] == 0 && m[j][i] == 1 {
          dominating := dominating + {j};
          dominated := dominated + {i};
        }
        CollectStep(m, i, j, before, dominating, beforeDominated, dominated);
        j := j + 1;
      }
      SeenNextRow(i, n);
      i := i + 1;
    }
    assert forall a, b :: 0 <= a < n && 0 <= b < n ==> Seen(n, n, a, b);
  }

  /** Visiting the pair (i, j) adds its dominating side to the one set and
      its dominated side to the other. */
  lemma CollectStep(m: Matrix, i: int, j: int, before: set<int>, after: set<int>,
                    beforeDominated: set<int>, afterDominated: set<int>)
    requires IsSquare(m) && 0 <= i <= j < |m|
    requires forall a :: a in before <==>
      0 <= a < |m| && exists b :: 0 <= b < |m| && Seen(i, j, a, b) && Dominates(m, a, b)
    requires forall b :: b in beforeDominated <==>
      0 <= b < |m| && exists a :: 0 <= a < |m| && Seen(i, j, a, b) && Dominates(m, a, b)
    requires after == before + (if Dominates(m, i, j) then {i} else {}) + (if Dominates(m, j, i) then {j} else {})
    requires afterDominated == beforeDominated + (if Dominates(m, i, j) then {j} else {}) + (if Dominates(m, j, i) then {i} else {})
    ensures forall a :: a in after <==>
      0 <= a < |m| && exists b :: 0 <= b < |m| && Seen(i, j + 1, a, b) && Dominates(m, a, b)
    ensures forall b :: b in afterDominated <==>
      0 <= b < |m| && exists a :: 0 <= a < |m| && Seen(i, j + 1, a, b) && Dominates(m, a, b)
  {
    var n := |m|;
    SeenStep(i, j);
    forall a | 0 <= a < n
      ensures a in after <==> exists b :: 0 <= b < n && Seen(i, j + 1, a, b) && Dominates(m, a, b)
    {
      if a in after && a !in before {
        assert (a == i && Dominates(m, i, j)) || (a == j && Dominates(m, j, i));
      }
      if exists b :: 0 <= b < n && Seen(i, j + 1, a, b) && Dominates(m, a, b) {
        var b :| 0 <= b < n && Seen(i, j + 1, a, b) && Dominates(m, a, b);
        if !Seen(i, j, a, b) {
          assert (a == i && b == j) || (a == j && b == i);
        }
      }
    }
    forall b | 0 <= b < n
      ensures b in afterDominated <==> exists a :: 0 <= a < n && Seen(i, j + 1, a, b) && Dominates(m, a, b)
    {
      if b in afterDominated && b !in beforeDominated {
        assert (b == j && Dominates(m, i, j)) || (b == i && Dominates(m, j, i));
      }
      if exists a :: 0 <= a < n && Seen(i, j + 1, a, b) && Dominates(m, a, b) {
        var a :| 0 <= a < n && Seen(i, j + 1, a, b) && Dominates(m, a, b);
        if !Seen(i, j, a, b) {
          assert (a == i && b == j) || (a == j && b == i);
        }
      }
    }
  }

  lemma SeenStep(i: int, j: int)
    requires i <= j
    ensures forall a, b :: Seen(i, j + 1, a, b) <==>
      Seen(i, j, a, b) || (a == i && b == j) || (a == j && b == i)
  {
  }

  lemma SeenNextRow(i: int, n: int)
    requires i < n
    ensures forall a, b :: 0 <= a < n && 0 <= b < n ==> (Seen(i, n, a, b) <==> Seen(i + 1, i + 1, a, b))
  {
  }

  /** The -1 pattern of the matrix is symmetric, the diagonal is never 1,
      and an attribute no relation carries has an all -1 row and column. */
  lemma CellShape(schema: Schema, x: int, y: int)
    ensures Cell(schema, x, y) == -1 <==> Cell(schema, y, x) == -1
    ensures Cell(schema, x, x) != 1
    ensures (forall r :: 0 <= r < |schema| ==> !Carries(schema[r], x)) ==>
      Cell(schema, x, y) == -1 && Cell(schema, y, x) == -1
  {
    if CoOccur(schema, x, y) {
      var r :| 0 <= r < |schema| && Carries(schema[r], x) && Carries(schema[r], y);
      assert CoOccur(schema, y, x);
    }
    if CoOccur(schema, y, x) {
      var r :| 0 <= r < |schema| && Carries(schema[r], y) && Carries(schema[r], x);
      assert CoOccur(schema, x, y);
    }
  }

  /** The matrix does not depend on the order in which relations are
      listed. */
  lemma CellOrderIndependent(s1: Schema, s2: Schema, x: int, y: int)
    requires multiset(s1) == multiset(s2)
    ensures Cell(s1, x, y) == Cell(s2, x, y)
  {
    SameRowsCoOccur(s1, s2, x, y);
    SameRowsCoOccur(s2, s1, x, y);
    SameRowsEscapes(s1, s2, x, y);
    SameRowsEscapes(s2, s1, x, y);
  }

  lemma SameRowsCoOccur(s1: Schema, s2: Schema, x: int, y: int)
    requires multiset(s1) == multiset(s2)
    ensures CoOccur(s1, x, y) ==> CoOccur(s2, x, y)
  {
    if CoOccur(s1, x, y) {
      var r :| 0 <= r < |s1| && Carries(s1[r], x) && Carries(s1[r], y);
      assert s1[r] in multiset(s2);
      var r2 :| 0 <= r2 < |s2| && s2[r2] == s1[r];
      assert Carries(s2[r2], x) && Carries(s2[r2], y);
    }
  }

  lemma SameRowsEscapes(s1: Schema, s2: Schema, x: int, y: int)
    requires multiset(s1) == multiset(s2)
    ensures Escapes(s1, x, y) ==> Escapes(s2, x, y)
  {
    if Escapes(s1, x, y) {
      var r :| 0 <= r < |s1| && Carries(s1[r], x) && Lacks(s1[r], y);
      assert s1[r] in multiset(s2);
      var r2 :| 0 <= r2 < |s2| && s2[r2] == s1[r];
      assert Carries(s2[r2], x) && Lacks(s2[r2], y);
    }
  }

  /** On a constructed matrix, i dominates j exactly when every relation
      carrying j also carries i, j occurs somewhere, and i occurs somewhere
      without j: the domination rule of constructDominationMatrix's
      docstring, narrowed to attributes that occur and that do not always
      occur together. */
  lemma DominationRule(schema: Schema, i: int, j: int)
    requires WellShaped(schema) && Binary(schema)
    requires 0 <= i < |schema[0]| && 0 <= j < |schema[0]|
    ensures Dominates(DominationMatrixOf(schema), i, j) <==>
      (forall r :: 0 <= r < |schema| && Carries(schema[r], j) ==> Carries(schema[r], i)) &&
      (exists r :: 0 <= r < |schema| && Carries(schema[r], j)) &&
      (exists r :: 0 <= r < |schema| && Carries(schema[r], i) && !Carries(schema[r], j))
  {
    var m := DominationMatrixOf(schema);
    var follows := forall r :: 0 <= r < |schema| && Carries(schema[r], j) ==> Carries(schema[r], i);
    var occurs := exists r :: 0 <= r < |schema| && Carries(schema[r], j);
    var leaves := exists r :: 0 <= r < |schema| && Carries(schema[r], i) && !Carries(schema[r], j);
    if Dominates(m, i, j) {
      assert Cell(schema, i, j) == 1 && Cell(schema, j, i) == 0;
      var r :| 0 <= r < |schema| && Carries(schema[r], i) && Carries(schema[r], j);
      assert occurs;
      var e :| 0 <= e < |schema| && Carries(schema[e], i) && Lacks(schema[e], j);
      assert leaves;
      assert !Escapes(schema, j, i);
      forall q | 0 <= q < |schema| && Carries(schema[q], j)
        ensures Carries(schema[q], i)
      {
        assert !Lacks(schema[q], i);
      }
    }
    if follows && occurs && leaves {
      var r :| 0 <= r < |schema| && Carries(schema[r], j);
      assert Carries(schema[r], i);
      assert CoOccur(schema, i, j) && CoOccur(schema, j, i);
      var e :| 0 <= e < |schema| && Carries(schema[e], i) && !Carries(schema[e], j);
      assert Lacks(schema[e], j);
      assert Escapes(schema, i, j);
      assert !Escapes(schema, j, i);
      assert m[i][j] == 1 && m[j][i] == 0;
    }
  }

  /** Two cells of 1 mean each attribute occurs somewhere without the
      other: the pair is incomparable, and neither is collected. */
  lemma BothOnesIncomparable(schema: Schema, i: int, j: int)
    requires WellShaped(schema)
    requires 0 <= i < |schema[0]| && 0 <= j < |schema[0]|
    ensures var m := DominationMatrixOf(schema);
      (m[i][j] == 1 && m[j][i] == 1) <==>
        CoOccur(schema, i, j) && Escapes(schema, i, j) && Escapes(schema, j, i)
    ensures var m := DominationMatrixOf(schema);
      m[i][j] == 1 && m[j][i] == 1 ==> !Dominates(m, i, j) && !Dominates(m, j, i)
  {
    CellShape(schema, i, j);
  }

  /** The schema of the repository's tests: R1(A1,A2), R2(A2,A3,A5),
      R3(A3,A4) over attributes A0..A5. */
  function TestSchema(): Schema
  {
    [[0, 1, 1, 0, 0, 0],
     [0, 0, 1, 1, 0, 1],
     [0, 0, 0, 1, 1, 0]]
  }

  function TestMatrix(): Matrix
  {
    [[-1, -1, -1, -1, -1, -1],
     [-1, 0, 0, -1, -1, -1],
     [-1, 1, 0, 1, -1, 1],
     [-1, -1, 1, 0, 1, 1],
     [-1, -1, -1, 0, 0, -1],
     [-1, -1, 0, 0, -1, 0]]
  }

  /** The test schema yields exactly the matrix the tests expect. */
  lemma TestSchemaMatrix()
    ensures DominationMatrixOf(TestSchema()) == TestMatrix()
  {
    var s := TestSchema();
    var m := DominationMatrixOf(s);
    forall x | 0 <= x < 6
      ensures m[x] == TestMatrix()[x]
    {
      forall y | 0 <= y < 6
        ensures m[x][y] == TestMatrix()[x][y]
      {
        TestCell(x, y);
      }
    }
  }

  lemma TestCell(x: int, y: int)
    requires 0 <= x < 6 && 0 <= y < 6
    ensures Cell(TestSchema(), x, y) == TestMatrix()[x][y]
  {
    var s := TestSchema();
    assert CoOccur(s, x, y) <==>
      (Carries(s[0], x) && Carries(s[0], y)) || (Carries(s[1], x) && Carries(s[1], y)) ||
      (Carries(s[2], x) && Carries(s[2], y));
    assert Escapes(s, x, y) <==>
      (Carries(s[0], x) && Lacks(s[0], y)) || (Carries(s[1], x) && Lacks(s[1], y)) ||
      (Carries(s[2], x) && Lacks(s[2], y));
  }

  /** The test matrix yields dominating {2, 3} and dominated {1, 4, 5}. */
  lemma TestMatrixInference()
    ensures DominatingOf(TestMatrix()) == {2, 3}
    ensures DominatedOf(TestMatrix()) == {1, 4, 5}
  {
    var m := TestMatrix();
    assert Dominates(m, 2, 1) && Dominates(m, 3, 4) && Dominates(m, 2, 5);
    forall a | 0 <= a < 6
      ensures IsDominating(m, a) <==> a in {2, 3}
      ensures IsDominated(m, a) <==> a in {1, 4, 5}
    {
      assert forall b :: 0 <= b < 6 ==> (Dominates(m, a, b) <==> (a, b) in {(2, 1), (2, 5), (3, 4), (3, 5)});
      assert forall b :: 0 <= b < 6 ==> (Dominates(m, b, a) <==> (b, a) in {(2, 1), (2, 5), (3, 4), (3, 5)});
    }
  }

  /** Nothing keeps the two collected sets apart: in R1(A1), R2(A1,A2),
      R3(A1,A2,A3), A1 dominates A2 and A2 dominates A3, so A2 is both
      dominating and dominated. */
  lemma DominationSetsMayOverlap()
    ensures var m := DominationMatrixOf([[0, 1, 0, 0], [0, 1, 1, 0], [0, 1, 1, 1]]);
      2 in DominatingOf(m) && 2 in DominatedOf(m)
  {
    var s: Schema := [[0, 1, 0, 0], [0, 1, 1, 0], [0, 1, 1, 1]];
    var m := DominationMatrixOf(s);
    assert Carries(s[2], 2) && Carries(s[2], 3) && Lacks(s[1], 3);
    assert m[2][3] == 1;
    assert !Escapes(s, 3, 2);
    assert m[3][2] == 0;
    assert Carries(s[1], 1) && Carries(s[1], 2) && Lacks(s[0], 2);
    assert m[1][2] == 1;
    assert !Escapes(s, 2, 1);
    assert m[2][1] == 0;
    assert Dominates(m, 2, 3) && Dominates(m, 1, 2);
  }

  /** The dominating attributes with dominated status taking precedence:
      an attribute some other attribute dominates is not reported as
      dominating. */
  function DominatingIntended(m: Matrix): (r: set<int>)
    requires IsSquare(m)
    ensures r !! DominatedOf(m)
    ensures r + DominatedOf(m) == DominatingOf(m) + DominatedOf(m)
  {
    DominatingOf(m) - DominatedOf(m)
  }

  /** The domination rule read off the schema itself: every relation
      carrying j also carries i, j occurs somewhere, and i occurs somewhere
      without j (the right-hand side of DominationRule). */
  predicate RuleDominates(schema: Schema, i: int, j: int)
  {
    (forall r :: 0 <= r < |schema| && Carries(schema[r], j) ==> Carries(schema[r], i)) &&
    (exists r :: 0 <= r < |schema| && Carries(schema[r], j)) &&
    (exists r :: 0 <= r < |schema| && Carries(schema[r], i) && !Carries(schema[r], j))
  }

  /** For every 0/1 schema, an attribute is in the corrected dominating set
      exactly when, under the domination rule, it dominates some attribute
      and no attribute dominates it. */
  lemma DominatingIntendedRule(schema: Schema, a: int)
    requires WellShaped(schema) && Binary(schema)
    requires 0 <= a < |schema[0]|
    ensures a in DominatingIntended(DominationMatrixOf(schema)) <==>
      (exists b :: 0 <= b < |schema[0]| && RuleDominates(schema, a, b)) &&
      !(exists c :: 0 <= c < |schema[0]| && RuleDominates(schema, c, a))
  {
    var m := DominationMatrixOf(schema);
    forall b | 0 <= b < |schema[0]|
      ensures Dominates(m, a, b) <==> RuleDominates(schema, a, b)
    {
      DominationRule(schema, a, b);
    }
    forall c | 0 <= c < |schema[0]|
      ensures Dominates(m, c, a) <==> RuleDominates(schema, c, a)
    {
      DominationRule(schema, c, a);
    }
  }

  /** On the overlapping schema the corrected set drops A2. */
  lemma DominatingIntendedExamples()
    ensures var m := DominationMatrixOf([[0, 1, 0, 0], [0, 1, 1, 0], [0, 1, 1, 1]]);
      2 in DominatingOf(m) && 2 !in DominatingIntended(m)
  {
    DominationSetsMayOverlap();
  }

  /** On the test matrix the corrected set is still {2, 3}. */
  lemma DominatingIntendedOnTest()
    ensures DominatingIntended(TestMatrix()) == {2, 3}
  {
    TestMatrixInference();
  }

  /** The attributes constructCostExprVars keeps for one relation: it starts
      from A1..A(n-1) and walks the relation's entries, dropping every
      attribute the relation carries unless it is dominated. */
  function RemoveCarried(rel: seq<int>, k: nat, dominated: set<int>, acc: set<int>): (r: set<int>)
    requires k <= |rel|
    ensures forall a :: a in r <==> a in acc && !(k <= a < |rel| && rel[a] == 1 && a !in dominated)
    decreases |rel| - k
  {
    if k == |rel| then acc
    else RemoveCarried(rel, k + 1, dominated, if rel[k] == 1 && k !in dominated then acc - {k} else acc)
  }

  /** `set(range(1, n))`. */
  function AllAttributes(n: int): (r: set<int>)
    ensures forall a :: a in r <==> 1 <= a < n
    decreases n
  {
    if n <= 1 then {} else AllAttributes(n - 1) + {n - 1}
  }

  /** The term of one relation as the source builds it. */
  function WrittenTerm(rel: seq<int>, n: int, dominated: set<int>): (r: set<int>)
    ensures forall a :: a in r <==> 1 <= a < n && (!Carries(rel, a) || a in dominated)
  {
    RemoveCarried(rel, 0, dominated, AllAttributes(n))
  }

  /** constructCostExprVars as written, one term per relation, each term as
      a set since the source builds it through a Python set. A term holds
      exactly the attributes 1..n-1 that the relation does not carry, plus
      the dominated attributes it does carry. */
  function CostExprVars(schema: Schema, n: int, dominated: set<int>): (terms: seq<set<int>>)
    ensures |terms| == |schema|
    ensures forall r, a :: 0 <= r < |schema| ==>
      (a in terms[r] <==> 1 <= a < n && (!Carries(schema[r], a) || a in dominated))
  {
    seq(|schema|, r requires 0 <= r < |schema| => WrittenTerm(schema[r], n, dominated))
  }

  /** The term the tests expect: free attributes 1..n-1,
      minus the dominated ones, minus those the relation carries. */
  function CostTermsIntended(schema: Schema, n: int, dominated: set<int>): (terms: seq<set<int>>)
    ensures |terms| == |schema|
  {
    seq(|schema|, r requires 0 <= r < |schema| =>
      set a | 1 <= a < n && a !in dominated && !Carries(schema[r], a))
  }

  /** The intended terms are the as-written terms with the dominated
      attributes taken out; the two agree only when no dominated attribute
      is carried-or-free in a term. */
  lemma IntendedIsWrittenWithoutDominated(schema: Schema, n: int, dominated: set<int>)
    ensures forall r :: 0 <= r < |schema| ==>
      CostTermsIntended(schema, n, dominated)[r] == CostExprVars(schema, n, dominated)[r] - dominated
    ensures forall r, a :: 0 <= r < |schema| && a in CostTermsIntended(schema, n, dominated)[r] ==>
      1 <= a < n && a !in dominated && !Carries(schema[r], a)
  {
  }

  /** On the test schema with dominated {1, 4, 5} the code as written yields
      [[1,3,4,5], [1,4,5], [1,2,4,5]], while the tests expect [[3], [], [2]]. */
  lemma CostTermsOnTestSchema()
    ensures CostExprVars(TestSchema(), 6, {1, 4, 5}) == [{1, 3, 4, 5}, {1, 4, 5}, {1, 2, 4, 5}]
    ensures CostTermsIntended(TestSchema(), 6, {1, 4, 5}) == [{3}, {}, {2}]
  {
    var written: seq<set<int>> := [{1, 3, 4, 5}, {1, 4, 5}, {1, 2, 4, 5}];
    var intended: seq<set<int>> := [{3}, {}, {2}];
    forall r | 0 <= r < 3
      ensures CostExprVars(TestSchema(), 6, {1, 4, 5})[r] == written[r]
      ensures CostTermsIntended(TestSchema(), 6, {1, 4, 5})[r] == intended[r]
    {
      TestTerm(r, written[r], intended[r]);
    }
  }

  lemma TestTerm(r: int, written: set<int>, intended: set<int>)
    requires 0 <= r < 3
    requires written == [{1, 3, 4, 5}, {1, 4, 5}, {1, 2, 4, 5}][r]
    requires intended == [{3}, {}, {2}][r]
    ensures CostExprVars(TestSchema(), 6, {1, 4, 5})[r] == written
    ensures CostTermsIntended(TestSchema(), 6, {1, 4, 5})[r] == intended
  {
    var row := TestSchema()[r];
    var dominated := {1, 4, 5};
    assert forall a :: a in written ==> 1 <= a < 6;
    assert forall a :: a in intended ==> 1 <= a < 6;
    forall a | 1 <= a < 6
      ensures a in written <==> !Carries(row, a) || a in dominated
      ensures a in intended <==> a !in dominated && !Carries(row, a)
    {
    }
    TermsOfRow(TestSchema(), 6, dominated, r, written, intended);
  }

  /** A row's two terms are the sets whose members are the attributes
      1..n-1 that meet the as-written and the intended conditions. */
  lemma TermsOfRow(schema: Schema, n: int, dominated: set<int>, r: int,
                   written: set<int>, intended: set<int>)
    requires 0 <= r < |schema|
    requires forall a :: a in written ==> 1 <= a < n
    requires forall a :: a in intended ==> 1 <= a < n
    requires forall a :: 1 <= a < n ==>
      (a in written <==> !Carries(schema[r], a) || a in dominated) &&
      (a in intended <==> a !in dominated && !Carries(schema[r], a))
    ensures CostExprVars(schema, n, dominated)[r] == written
    ensures CostTermsIntended(schema, n, dominated)[r] == intended
  {
    var w := CostExprVars(schema, n, dominated)[r];
    var t := CostTermsIntended(schema, n, dominated)[r];
    assert forall a :: a in w <==> a in written;
    assert forall a :: a in t <==> a in intended;
  }
}
