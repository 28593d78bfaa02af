/** The optimisation-model serialiser: the communication-cost objective and
    the reducer-budget constraint that are handed to the MINLP solver as
    Python expression text. Their meaning is given by a reader for the
    small expression language the text uses (sums of products of integer
    literals and share variables `model.x[a]`) and by evaluating what it
    reads under an assignment of shares. */
module MinlpModel {

  import opened Base
  import opened Text

  /** `"%d" % x` for a float: truncation toward zero. */
  function Trunc(x: real): (r: int)
    ensures x >= 0.0 ==> r as real <= x < r as real + 1.0
    ensures x < 0.0 ==> r as real - 1.0 < x <= r as real
  {
    if x >= 0.0 then x.Floor else -((-x).Floor)
  }

  // ---------------------------------------------------------------------
  // The expression language and its meaning

  /** A factor of a product: an integer literal or the share variable
      `model.x[a]`. */
  datatype Factor = Lit(n: int) | Var(a: int)

  /** `model.x[` + something + `]`. */
  predicate IsVarText(t: string)
  {
    |t| >= 9 && t[..8] == "model.x[" && t[|t| - 1] == ']'
  }

  /** What `eval` reads: `model.x[<int>]` is a variable, anything else
      must be an integer literal. */
  function ReadFactor(s: string): (r: Result<Factor>)
    ensures r.Err? ==> r.error == ValueError
  {
    var t := Strip(s);
    if IsVarText(t) then
      var i := ParseInt(t[8..|t| - 1]);
      if i.Err? then Err(i.error) else Ok(Var(i.value))
    else
      var i := ParseInt(t);
      if i.Err? then Err(i.error) else Ok(Lit(i.value))
  }

  /** A product: factors separated by `*`, each read in turn. */
  function ReadProduct(p: string): Result<seq<Factor>>
  {
    MapResult(Split(p, "*"), ReadFactor)
  }

  /** An objective: products separated by `+`. */
  function ReadObjective(s: string): Result<seq<seq<Factor>>>
  {
    MapResult(Split(s, "+"), ReadProduct)
  }

  function FactorValue(f: Factor, share: int -> int): int
  {
    match f
    case Lit(n) => n
    case Var(a) => share(a)
  }

  function ProductValue(fs: seq<Factor>, share: int -> int): int
  {
    if |fs| == 0 then 1 else FactorValue(fs[0], share) * ProductValue(fs[1..], share)
  }

  function SumValue(ps: seq<seq<Factor>>, share: int -> int): int
  {
    if |ps| == 0 then 0 else ProductValue(ps[0], share) + SumValue(ps[1..], share)
  }

  // ---------------------------------------------------------------------
  // The reference meaning: communication cost and reducer budget

  /** The product of the shares of some attributes. */
  function Shares(vars: seq<nat>, share: int -> int): int
  {
    if |vars| == 0 then 1 else share(vars[0]) * Shares(vars[1..], share)
  }

  /** The communication cost of the Shares scheme: every relation's size
      (as `%d` renders it) times the product of the shares of its term's
      attributes, summed over the relations. */
  function Cost(terms: seq<seq<nat>>, sizes: seq<real>, share: int -> int): int
    requires |terms| <= |sizes|
  {
    Sum(seq(|terms|, r requires 0 <= r < |terms| => Trunc(sizes[r]) * Shares(terms[r], share)))
  }

  // ---------------------------------------------------------------------
  // constructObjective

  /** `"model.x[%d]" % a`. */
  function VarText(a: nat): string
  {
    "model.x[" + IntToString(a) + "]"
  }

  /** `"model.x[%d]"` of each variable of a term, in term order. */
  function VarTexts(vars: seq<nat>): (r: seq<string>)
    ensures |r| == |vars|
  {
    seq(|vars|, i requires 0 <= i < |vars| => VarText(vars[i]))
  }

  /** `" * " + x` for each factor text x, in order. */
  function Factors(xs: seq<string>): string
  {
    if |xs| == 0 then "" else " * " + xs[0] + Factors(xs[1..])
  }

  /** A relation's summand without the `+` that follows it: `" %d"` of
      its size, `" * model.x[%d]"` per variable of its term (or `" * 1"`
      when the term is empty), then the blank of `" +"`. */
  function Piece(size: real, vars: seq<nat>): string
  {
    " " + IntToString(Trunc(size)) + Factors(SummandTexts(vars)) + " "
  }

  /** The factor texts of a summand after its size: its variables, or the
      numeral `1` (`str(1)`) when it has none. */
  function SummandTexts(vars: seq<nat>): seq<string>
  {
    if |vars| > 0 then VarTexts(vars) else [IntToString(1)]
  }

  /** The summands of all relations, in relation order. */
  function Pieces(terms: seq<seq<nat>>, sizes: seq<real>): (r: seq<string>)
    requires |terms| <= |sizes|
    ensures |r| == |terms|
  {
    seq(|terms|, k requires 0 <= k < |terms| => Piece(sizes[k], terms[k]))
  }

  /** `constructObjective`: the loop appends every relation's summand
      followed by `+`; the last character (the final `+`) is cut off. */
  function ConstructObjective(terms: seq<seq<nat>>, sizes: seq<real>): (r: string)
    requires |terms| <= |sizes|
    ensures r == "" <==> |terms| == 0
  {
    var ps := Pieces(terms, sizes);
    var s := Terminated(ps, "+");
    assert |terms| > 0 ==> |s| >= |ps[|ps| - 1]| + 1 > 1;
    if |s| == 0 then "" else s[..|s| - 1]
  }

  /** The variables of a term as factors. */
  function VarsOf(vars: seq<nat>): (r: seq<Factor>)
    ensures |r| == |vars|
  {
    seq(|vars|, i requires 0 <= i < |vars| => Var(vars[i]))
  }

  /** The product the objective holds for one relation: its truncated
      size, then its variables, or the literal 1 when it has none. */
  function Summand(size: real, vars: seq<nat>): seq<Factor>
  {
    [Lit(Trunc(size))] + TermFactors(vars)
  }

  /** The factors of a summand after its size. */
  function TermFactors(vars: seq<nat>): seq<Factor>
  {
    if |vars| > 0 then VarsOf(vars) else [Lit(1)]
  }

  function Summands(terms: seq<seq<nat>>, sizes: seq<real>): (r: seq<seq<Factor>>)
    requires |terms| <= |sizes|
    ensures |r| == |terms|
  {
    seq(|terms|, k requires 0 <= k < |terms| => Summand(sizes[k], terms[k]))
  }

  // Text facts

  lemma NatToStringNoMinus(a: nat)
    ensures '-' !in IntToString(a)
  {
    var s := IntToString(a);
    assert AllDigits(s);
    assert forall k :: 0 <= k < |s| ==> s[k] != '-';
  }

  lemma VarTextAvoids(a: nat, c: char)
    requires c == '+' || c == '*' || c == '-'
    ensures c !in VarText(a)
  {
    if c == '-' {
      NatToStringNoMinus(a);
    } else {
      IntToStringAvoids(a, c);
    }
  }

  lemma {:induction false} FactorsAvoid(xs: seq<string>, c: char)
    requires c != ' ' && c != '*'
    requires forall k :: 0 <= k < |xs| ==> c !in xs[k]
    ensures c !in Factors(xs)
  {
    if |xs| > 0 {
      FactorsAvoid(xs[1..], c);
    }
  }

  /** A text that strips to an integer numeral reads as a literal. */
  lemma ReadStrippedLiteral(s: string, t: string, i: int)
    requires Strip(s) == t && |t| > 0 && t[0] != 'm'
    requires ParseInt(t) == Ok(i)
    ensures ReadFactor(s) == Ok(Lit(i))
  {
    assert !IsVarText(t) by {
      assert |t| >= 9 ==> t[..8][0] != 'm';
    }
  }

  /** A text that strips to `model.x[` + numeral + `]` reads as a variable. */
  lemma ReadStrippedVariable(s: string, t: string, n: string, a: int)
    requires Strip(s) == t && IsVarText(t)
    requires t[8..|t| - 1] == n && ParseInt(n) == Ok(a)
    ensures ReadFactor(s) == Ok(Var(a))
  {
  }

  /** What `eval` makes of a padded literal. */
  lemma ReadLiteral(i: int)
    ensures ReadFactor(" " + IntToString(i) + " ") == Ok(Lit(i))
  {
    var s := IntToString(i);
    assert Strip(" " + s + " ") == s by {
      StripPadded(" ", s, " ");
    }
    assert ParseInt(s) == Ok(i) by {
      ParseIntToString(i);
    }
    assert s[0] != 'm' by {
      assert IsDigit(s[0]) || s[0] == '-';
    }
    ReadStrippedLiteral(" " + s + " ", s, i);
  }

  lemma VarTextShape(a: nat)
    ensures IsVarText(VarText(a))
    ensures VarText(a)[8..|VarText(a)| - 1] == IntToString(a)
  {
  }

  /** What `eval` makes of a padded variable. */
  lemma ReadVariable(a: nat)
    ensures ReadFactor(" " + VarText(a) + " ") == Ok(Var(a))
  {
    var n := IntToString(a);
    var t := VarText(a);
    assert Strip(" " + t + " ") == t by {
      VarTextShape(a);
      StripPadded(" ", t, " ");
    }
    assert ParseInt(n) == Ok(a) by {
      ParseIntToString(a);
    }
    VarTextShape(a);
    ReadStrippedVariable(" " + t + " ", t, n, a);
  }

  /** Each factor text with a blank on either side. */
  function Padded(xs: seq<string>): (r: seq<string>)
    ensures |r| == |xs|
  {
    seq(|xs|, i requires 0 <= i < |xs| => " " + xs[i] + " ")
  }

  /** The padded variable texts avoid the operators and read back as the
      variables. */
  lemma ReadVarTexts(vars: seq<nat>)
    ensures forall k :: 0 <= k < |vars| ==>
      '*' !in Padded(VarTexts(vars))[k] && '+' !in VarTexts(vars)[k] &&
      '-' !in Padded(VarTexts(vars))[k] && ReadFactor(Padded(VarTexts(vars))[k]) == Ok(Var(vars[k]))
  {
    forall k | 0 <= k < |vars|
      ensures '*' !in Padded(VarTexts(vars))[k] && '+' !in VarTexts(vars)[k]
      ensures '-' !in Padded(VarTexts(vars))[k] && ReadFactor(Padded(VarTexts(vars))[k]) == Ok(Var(vars[k]))
    {
      VarTextAvoids(vars[k], '*');
      VarTextAvoids(vars[k], '+');
      VarTextAvoids(vars[k], '-');
      ReadVariable(vars[k]);
    }
  }

  /** A product whose `*`-free pieces each read as a factor. */
  lemma ReadJoinedFactors(ps: seq<string>, want: seq<Factor>)
    requires |ps| >= 1 && |want| == |ps|
    requires forall k :: 0 <= k < |ps| ==> '*' !in ps[k]
    requires forall k :: 0 <= k < |ps| ==> ReadFactor(ps[k]) == Ok(want[k])
    ensures ReadProduct(Join(ps, "*")) == Ok(want)
  {
    assert Split(Join(ps, "*"), "*") == ps by {
      SplitJoin(ps, "*");
    }
    var r := MapResult(ps, ReadFactor);
    assert r.Ok?;
    assert forall k :: 0 <= k < |ps| ==> r.value[k] == want[k];
    assert r.value == want;
  }

  /** The factors of a summand are its `*`-separated pieces. */
  lemma FactorRegroup(h: string, x: string, f: string)
    ensures h + (" * " + x + f) + " " == (h + " ") + "*" + (" " + x + f + " ")
  {
    assert " * " == " " + "*" + " ";
  }

  lemma {:induction false} FactorsJoin(h: string, xs: seq<string>)
    ensures h + Factors(xs) + " " == Join([h + " "] + Padded(xs), "*")
    decreases |xs|
  {
    if |xs| > 0 {
      var x := xs[0];
      var f := Factors(xs[1..]);
      var rest := Padded(xs[1..]);
      assert Padded(xs) == [" " + x + " "] + rest;
      assert " " + x + f + " " == Join([" " + x + " "] + rest, "*") by {
        FactorsJoin(" " + x, xs[1..]);
      }
      assert h + (" * " + x + f) + " " == (h + " ") + "*" + (" " + x + f + " ") by {
        FactorRegroup(h, x, f);
      }
      JoinPrefix(h + " ", Padded(xs), "*");
    } else {
      assert [h + " "] + Padded(xs) == [h + " "];
    }
  }

  /** The padded factor texts after the size avoid the operators and read
      back as the factors after the size. */
  lemma ReadSummandTexts(vars: seq<nat>)
    ensures |SummandTexts(vars)| == |TermFactors(vars)|
    ensures forall k :: 0 <= k < |SummandTexts(vars)| ==>
      '*' !in Padded(SummandTexts(vars))[k] && '+' !in SummandTexts(vars)[k] &&
      ReadFactor(Padded(SummandTexts(vars))[k]) == Ok(TermFactors(vars)[k])
  {
    var texts := SummandTexts(vars);
    if |vars| > 0 {
      assert texts == VarTexts(vars) && TermFactors(vars) == VarsOf(vars);
      ReadVarTexts(vars);
    } else {
      assert texts == [IntToString(1)] && TermFactors(vars) == [Lit(1)];
      ReadLiteralText(1);
    }
  }

  /** A literal alone as the factor texts after the size. */
  lemma ReadLiteralText(i: int)
    ensures '*' !in Padded([IntToString(i)])[0] && '+' !in IntToString(i)
    ensures ReadFactor(Padded([IntToString(i)])[0]) == Ok(Lit(i))
  {
    var s := IntToString(i);
    assert Padded([s])[0] == " " + s + " ";
    assert '*' !in " " + s + " " by {
      IntToStringAvoids(i, '*');
    }
    IntToStringAvoids(i, '+');
    ReadLiteral(i);
  }

  lemma PieceAvoidsPlus(size: real, vars: seq<nat>)
    ensures '+' !in Piece(size, vars)
  {
    IntToStringAvoids(Trunc(size), '+');
    assert '+' !in Factors(SummandTexts(vars)) by {
      ReadSummandTexts(vars);
      FactorsAvoid(SummandTexts(vars), '+');
    }
  }

  /** A literal followed by factor texts that each read back. */
  lemma ReadLiteralThen(lit: string, n: int, texts: seq<string>, tail: seq<Factor>)
    requires '*' !in lit && ReadFactor(lit) == Ok(Lit(n)) && |texts| == |tail|
    requires forall k :: 0 <= k < |texts| ==> '*' !in texts[k] && ReadFactor(texts[k]) == Ok(tail[k])
    ensures ReadProduct(Join([lit] + texts, "*")) == Ok([Lit(n)] + tail)
  {
    var ps := [lit] + texts;
    var want := [Lit(n)] + tail;
    forall k | 0 <= k < |ps|
      ensures '*' !in ps[k] && ReadFactor(ps[k]) == Ok(want[k])
    {
      if k > 0 {
        assert ps[k] == texts[k - 1] && want[k] == tail[k - 1];
      }
    }
    ReadJoinedFactors(ps, want);
  }

  /** Reading back the text of a summand with truncated size n. */
  lemma ReadSizedPiece(n: int, vars: seq<nat>)
    ensures ReadProduct(" " + IntToString(n) + Factors(SummandTexts(vars)) + " ")
         == Ok([Lit(n)] + TermFactors(vars))
  {
    var lit := " " + IntToString(n) + " ";
    var texts := Padded(SummandTexts(vars));
    assert Join([lit] + texts, "*") == " " + IntToString(n) + Factors(SummandTexts(vars)) + " " by {
      FactorsJoin(" " + IntToString(n), SummandTexts(vars));
    }
    assert '*' !in lit && ReadFactor(lit) == Ok(Lit(n)) by {
      IntToStringAvoids(n, '*');
      ReadLiteral(n);
    }
    ReadSummandTexts(vars);
    ReadLiteralThen(lit, n, texts, TermFactors(vars));
  }

  /** Reading a summand's text back gives its product. */
  lemma ReadPiece(size: real, vars: seq<nat>)
    ensures ReadProduct(Piece(size, vars)) == Ok(Summand(size, vars))
  {
    ReadSizedPiece(Trunc(size), vars);
  }

  /** The objective text is the summands joined by `+`. */
  lemma ObjectiveIsJoin(terms: seq<seq<nat>>, sizes: seq<real>)
    requires 1 <= |terms| <= |sizes|
    ensures ConstructObjective(terms, sizes) == Join(Pieces(terms, sizes), "+")
  {
    var j := Join(Pieces(terms, sizes), "+");
    TerminatedJoin(Pieces(terms, sizes), "+");
    assert (j + "+")[..|j + "+"| - 1] == j;
  }

  /** Reading the objective text back gives, per relation and in relation
      order, the relation's truncated size times its variables (or times
      1 when it has none). */
  lemma ObjectiveRoundTrip(terms: seq<seq<nat>>, sizes: seq<real>)
    requires 1 <= |terms| <= |sizes|
    ensures ReadObjective(ConstructObjective(terms, sizes)) == Ok(Summands(terms, sizes))
  {
    var ps := Pieces(terms, sizes);
    ObjectiveIsJoin(terms, sizes);
    forall k | 0 <= k < |ps|
      ensures '+' !in ps[k]
      ensures ReadProduct(ps[k]) == Ok(Summand(sizes[k], terms[k]))
    {
      PieceAvoidsPlus(sizes[k], terms[k]);
      ReadPiece(sizes[k], terms[k]);
    }
    SplitJoin(ps, "+");
    var r := MapResult(ps, ReadProduct);
    assert r.Ok?;
    var want := Summands(terms, sizes);
    assert |r.value| == |want|;
    assert forall k :: 0 <= k < |want| ==> r.value[k] == want[k];
    assert r.value == want;
  }

  /** With no relation the objective is empty, which `eval` rejects. */
  lemma ObjectiveOfNoRelations(sizes: seq<real>)
    ensures ReadObjective(ConstructObjective([], sizes)) == Err(ValueError)
  {
    assert Split("", "+") == [""];
    assert Strip("") == "";
  }

  lemma {:induction false} VarsValue(vars: seq<nat>, share: int -> int)
    ensures ProductValue(VarsOf(vars), share) == Shares(vars, share)
  {
    if |vars| > 0 {
      VarsValue(vars[1..], share);
      assert VarsOf(vars)[1..] == VarsOf(vars[1..]);
    }
  }

  lemma SummandValue(size: real, vars: seq<nat>, share: int -> int)
    ensures ProductValue(Summand(size, vars), share) == Trunc(size) * Shares(vars, share)
  {
    var f := Summand(size, vars);
    assert f[1..] == if |vars| > 0 then VarsOf(vars) else [Lit(1)];
    if |vars| > 0 {
      VarsValue(vars, share);
    } else {
      assert ProductValue([Lit(1)], share) == 1;
    }
  }

  lemma {:induction false} SummandsValue(terms: seq<seq<nat>>, sizes: seq<real>, share: int -> int)
    requires |terms| <= |sizes|
    ensures SumValue(Summands(terms, sizes), share) == Cost(terms, sizes, share)
    decreases |terms|
  {
    if |terms| > 0 {
      SummandsValue(terms[1..], sizes[1..], share);
      SummandValue(sizes[0], terms[0], share);
      assert Summands(terms, sizes)[1..] == Summands(terms[1..], sizes[1..]);
      var costs := seq(|terms|, r requires 0 <= r < |terms| => Trunc(sizes[r]) * Shares(terms[r], share));
      assert costs[1..] == seq(|terms| - 1, r requires 0 <= r < |terms| - 1 =>
        Trunc(sizes[1..][r]) * Shares(terms[1..][r], share));
    }
  }

  /** Under any assignment of shares the objective text evaluates to the
      communication cost. */
  lemma ObjectiveMeaning(terms: seq<seq<nat>>, sizes: seq<real>, share: int -> int)
    requires 1 <= |terms| <= |sizes|
    ensures ReadObjective(ConstructObjective(terms, sizes)).Ok?
    ensures SumValue(ReadObjective(ConstructObjective(terms, sizes)).value, share)
         == Cost(terms, sizes, share)
  {
    ObjectiveRoundTrip(terms, sizes);
    SummandsValue(terms, sizes, share);
  }

  /** Three relations, one with a fractional size and one with an empty
      term: `"%d"` keeps only the integer part of 7.5, and the relation
      with an empty term costs its size times 1. */
  lemma ObjectiveExample(terms: seq<seq<nat>>, sizes: seq<real>)
    requires terms == [[3, 2], [], [1]] && sizes == [100.0, 7.5, 20.0]
    ensures ReadObjective(ConstructObjective(terms, sizes))
         == Ok([[Lit(100), Var(3), Var(2)], [Lit(7), Lit(1)], [Lit(20), Var(1)]])
  {
    var want := [[Lit(100), Var(3), Var(2)], [Lit(7), Lit(1)], [Lit(20), Var(1)]];
    assert Summands(terms, sizes) == want by {
      assert Trunc(sizes[0]) == 100 && Trunc(sizes[1]) == 7 && Trunc(sizes[2]) == 20;
      assert VarsOf(terms[0]) == [Var(3), Var(2)];
      assert VarsOf(terms[2]) == [Var(1)];
      assert Summand(sizes[0], terms[0]) == want[0];
      assert Summand(sizes[1], terms[1]) == want[1];
      assert Summand(sizes[2], terms[2]) == want[2];
    }
    ObjectiveRoundTrip(terms, sizes);
  }

  // ---------------------------------------------------------------------
  // getUniqueExpressionVars and constructConstraint

  /** `set(x for l in terms for x in l)`. */
  function UniqueVars(terms: seq<seq<nat>>): (r: set<nat>)
    ensures forall a :: a in r <==>
      exists t, i :: 0 <= t < |terms| && 0 <= i < |terms[t]| && terms[t][i] == a
  {
    if |terms| == 0 then {}
    else
      var rest := UniqueVars(terms[1..]);
      assert forall a :: a in rest <==>
        exists t, i :: 1 <= t < |terms| && 0 <= i < |terms[t]| && terms[t][i] == a by {
        forall a | a in rest
          ensures exists t, i :: 1 <= t < |terms| && 0 <= i < |terms[t]| && terms[t][i] == a
        {
          var t, i :| 0 <= t < |terms[1..]| && 0 <= i < |terms[1..][t]| && terms[1..][t][i] == a;
          assert terms[t + 1][i] == a;
        }
      }
      (set x | x in terms[0]) + rest
  }

  /** `list(...)` of that set: each element once, in the set's iteration
      order, which the model leaves open. */
  predicate Enumerates(order: seq<nat>, s: set<nat>)
  {
    Distinct(order) && (forall a :: a in order ==> a in s) && (forall a :: a in s ==> a in order)
  }

  /** The factors of the budget: the loop appends `" model.x[%d] *"` for
      every unique variable, and the last character (the final `*`) is cut
      off. */
  function ConstraintBody(order: seq<nat>): (r: string)
    ensures r == "" <==> |order| == 0
  {
    var ps := Padded(VarTexts(order));
    var s := Terminated(ps, "*");
    assert |order| > 0 ==> |s| >= |ps[|ps| - 1]| + 1 > 1;
    if |s| == 0 then "" else s[..|s| - 1]
  }

  /** `constructConstraint` for the unique variables listed in `order`:
      the factors, then `"- %d == 0"` of the reducer count. */
  function ConstructConstraint(terms: seq<seq<nat>>, order: seq<nat>, k: int): (r: string)
    requires Enumerates(order, UniqueVars(terms))
    ensures r == "- " + IntToString(k) + " == 0" <==> UniqueVars(terms) == {}
  {
    assert |order| > 0 ==> order[0] in UniqueVars(terms);
    ConstraintBody(order) + "- " + IntToString(k) + " == 0"
  }

  /** What `eval` reads from a budget text: an optional product, minus an
      integer, compared with 0. */
  datatype Budget = Budget(product: Option<seq<Factor>>, k: int)

  function ReadConstraint(s: string): Result<Budget>
  {
    if !EndsWith(s, " == 0") then Err(ValueError)
    else
      var lhs := s[..|s| - 5];
      var parts := Split(lhs, "-");
      var k := ParseInt(Join(parts[1..], "-"));
      var product := if parts[0] == "" then Ok(None)
        else var p := ReadProduct(parts[0]); if p.Err? then Err(p.error) else Ok(Some(p.value));
      if k.Err? then Err(k.error)
      else if product.Err? then Err(product.error)
      else Ok(Budget(product.value, k.value))
  }

  /** `product - k == 0`, where a missing product leaves `-k == 0`. */
  predicate Holds(b: Budget, share: int -> int)
  {
    (if b.product.Some? then ProductValue(b.product.value, share) else 0) - b.k == 0
  }

  /** The factors of a budget are its unique variables joined by `*`. */
  lemma BodyIsJoin(order: seq<nat>)
    requires |order| > 0
    ensures ConstraintBody(order) == Join(Padded(VarTexts(order)), "*")
  {
    var j := Join(Padded(VarTexts(order)), "*");
    TerminatedJoin(Padded(VarTexts(order)), "*");
    assert (j + "*")[..|j + "*"| - 1] == j;
  }

  /** How a budget text with `-`-free factors is read. */
  lemma ReadBudgetText(body: string, k: int)
    requires '-' !in body
    ensures ReadConstraint(body + "- " + IntToString(k) + " == 0")
         == if body == "" then Ok(Budget(None, k))
            else if ReadProduct(body).Ok? then Ok(Budget(Some(ReadProduct(body).value), k))
            else Err(ValueError)
  {
    var kt := IntToString(k);
    var r := body + "- " + kt + " == 0";
    assert r[|r| - 5..] == " == 0";
    var lhs := r[..|r| - 5];
    assert lhs == body + "-" + (" " + kt);
    SplitAfterPiece(body, "-", " " + kt);
    var parts := Split(lhs, "-");
    assert parts[0] == body;
    assert parts[1..] == Split(" " + kt, "-");
    assert Join(parts[1..], "-") == " " + kt + "";
    ParseIntPadded(" ", k, "");
  }

  /** Reading the budget text back gives the product of the unique
      variables in the listed order, or no product when there are none,
      and the reducer count. */
  lemma ConstraintRoundTrip(terms: seq<seq<nat>>, order: seq<nat>, k: int)
    requires Enumerates(order, UniqueVars(terms))
    ensures ReadConstraint(ConstructConstraint(terms, order, k))
         == Ok(Budget(if |order| > 0 then Some(VarsOf(order)) else None, k))
  {
    var body := ConstraintBody(order);
    if |order| > 0 {
      var ps := Padded(VarTexts(order));
      ReadVarTexts(order);
      assert body == Join(ps, "*") by {
        BodyIsJoin(order);
      }
      assert '-' !in body by {
        JoinAvoids(ps, "*", '-');
      }
      ReadJoinedFactors(ps, VarsOf(order));
    }
    ReadBudgetText(body, k);
  }

  /** The budget text holds under an assignment exactly when the product
      of the shares of the unique variables is the reducer count; with no
      variables it states `-k == 0`. */
  lemma ConstraintMeaning(terms: seq<seq<nat>>, order: seq<nat>, k: int, share: int -> int)
    requires Enumerates(order, UniqueVars(terms))
    ensures ReadConstraint(ConstructConstraint(terms, order, k)).Ok?
    ensures Holds(ReadConstraint(ConstructConstraint(terms, order, k)).value, share) <==>
      if |order| > 0 then Shares(order, share) == k else k == 0
  {
    ConstraintRoundTrip(terms, order, k);
    VarsValue(order, share);
  }

  /** The docstring's example budget. */
  lemma ConstraintExample(terms: seq<seq<nat>>, order: seq<nat>)
    requires terms == [[3, 1], [1], [2]] && order == [1, 2, 3]
    ensures Enumerates(order, UniqueVars(terms))
    ensures ReadConstraint(ConstructConstraint(terms, order, 32))
         == Ok(Budget(Some([Var(1), Var(2), Var(3)]), 32))
  {
    assert Enumerates(order, UniqueVars(terms)) by {
      assert terms[0][1] == 1 && terms[2][0] == 2 && terms[0][0] == 3;
    }
    assert VarsOf(order) == [Var(1), Var(2), Var(3)];
    ConstraintRoundTrip(terms, order, 32);
  }

  // ---------------------------------------------------------------------
  // Independence of the set's iteration order

  lemma MulSwap(a: int, b: int, c: int)
    ensures a * (b * c) == b * (a * c)
  {
  }

  /** Taking one variable out of the product. */
  lemma {:induction false} SharesRemove(ys: seq<nat>, j: nat, share: int -> int)
    requires j < |ys|
    ensures Shares(ys, share) == share(ys[j]) * Shares(ys[..j] + ys[j + 1..], share)
  {
    if j == 0 {
      assert ys[..0] + ys[1..] == ys[1..];
    } else {
      var tail := ys[1..];
      var rest := tail[..j - 1] + tail[j..];
      assert ys[..j] + ys[j + 1..] == [ys[0]] + rest;
      assert Shares(tail, share) == share(ys[j]) * Shares(rest, share) by {
        SharesRemove(tail, j - 1, share);
      }
      assert Shares([ys[0]] + rest, share) == share(ys[0]) * Shares(rest, share) by {
        assert ([ys[0]] + rest)[1..] == rest;
      }
      MulSwap(share(ys[0]), share(ys[j]), Shares(rest, share));
    }
  }

  /** Removing one element from a duplicate-free listing leaves a
      duplicate-free listing of the other elements. */
  lemma RemoveOne(ys: seq<nat>, j: nat)
    requires j < |ys| && Distinct(ys)
    ensures Distinct(ys[..j] + ys[j + 1..])
    ensures forall a :: a in ys[..j] + ys[j + 1..] <==> a in ys && a != ys[j]
  {
    var rest := ys[..j] + ys[j + 1..];
    assert forall m :: 0 <= m < |rest| ==> rest[m] == ys[if m < j then m else m + 1];
    forall a | a in ys && a != ys[j]
      ensures a in rest
    {
      var m :| 0 <= m < |ys| && ys[m] == a;
      assert rest[if m < j then m else m - 1] == a;
    }
  }

  /** Two duplicate-free listings of the same variables have the same
      product of shares. */
  lemma {:induction false} SharesPermutation(xs: seq<nat>, ys: seq<nat>, share: int -> int)
    requires Distinct(xs) && Distinct(ys)
    requires forall a :: a in xs <==> a in ys
    ensures Shares(xs, share) == Shares(ys, share)
    decreases |xs|
  {
    SameElementsEmpty(xs, ys);
    if |xs| > 0 {
      assert xs[0] in ys;
      var j :| 0 <= j < |ys| && ys[j] == xs[0];
      var rest := ys[..j] + ys[j + 1..];
      RemoveOne(ys, j);
      RemoveOne(xs, 0);
      assert xs[..0] + xs[1..] == xs[1..];
      forall a
        ensures a in xs[1..] <==> a in rest
      {
        assert a in xs[..0] + xs[1..] <==> a in xs && a != xs[0];
        assert a in rest <==> a in ys && a != ys[j];
      }
      assert Shares(xs[1..], share) == Shares(rest, share) by {
        SharesPermutation(xs[1..], rest, share);
      }
      SharesRemove(ys, j, share);
    }
  }

  /** Whatever order the set of unique variables is listed in, the budget
      text means the same. */
  lemma ConstraintOrderIndependent(terms: seq<seq<nat>>, o1: seq<nat>, o2: seq<nat>, k: int,
                                   share: int -> int)
    requires Enumerates(o1, UniqueVars(terms)) && Enumerates(o2, UniqueVars(terms))
    ensures ReadConstraint(ConstructConstraint(terms, o1, k)).Ok?
    ensures ReadConstraint(ConstructConstraint(terms, o2, k)).Ok?
    ensures Holds(ReadConstraint(ConstructConstraint(terms, o1, k)).value, share) <==>
            Holds(ReadConstraint(ConstructConstraint(terms, o2, k)).value, share)
  {
    ConstraintMeaning(terms, o1, k, share);
    ConstraintMeaning(terms, o2, k, share);
    SameElementsEmpty(o1, o2);
    SharesPermutation(o1, o2, share);
  }
}
