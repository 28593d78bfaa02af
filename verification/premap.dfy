/** The premap phase: reading the schema, size and heavy-hitter descriptor
    lines, enumerating the residual joins as a cartesian product of
    ordinary and heavy values per attribute, rescaling the relation sizes
    of a residual join, and listing the attributes it pins. */
module Premap {

  import opened Base
  import opened Text
  import SharesJoin

  /** One entry of an attribute's type list: `'_'` for the ordinary values,
      or a heavy value. */
  datatype Val = Wild | V(value: int)

  // ---------------------------------------------------------------------
  // Schema lines: `R1(A1,A2)`

  /** `[0 for i in range(0, n)]`. */
  function Zeros(n: int): (r: seq<int>)
    ensures |r| == Max0(n)
    ensures forall i :: 0 <= i < |r| ==> r[i] == 0
  {
    seq(Max0(n), i => 0)
  }

  /** `[int(x) for x in xs]`; ValueError at the first piece `int()`
      rejects. */
  function ParseInts(xs: seq<string>): Result<seq<int>>
  {
    MapResult(xs, ParseInt)
  }

  /** Some listed index denotes position i of a row of length n. */
  predicate Listed(idx: seq<int>, n: nat, i: int)
  {
    exists k :: 0 <= k < |idx| && PyIndex(idx[k], n) == Some(i)
  }

  /** `for idx in indices: rel[idx] = 1`, with Python's negative indexing
      and IndexError at the first index out of range. */
  function MarkAll(row: seq<int>, idx: seq<int>): (r: Result<seq<int>>)
    ensures r.Ok? <==> forall k :: 0 <= k < |idx| ==> PyIndex(idx[k], |row|).Some?
    ensures r.Ok? ==> |r.value| == |row|
    ensures r.Ok? ==> forall i :: 0 <= i < |row| ==>
      r.value[i] == if Listed(idx, |row|, i) then 1 else row[i]
    ensures r.Err? ==> r.error == IndexError
    decreases |idx|
  {
    if |idx| == 0 then Ok(row)
    else
      match PyIndex(idx[0], |row|)
      case None => Err(IndexError)
      case Some(p) =>
        var r := MarkAll(row[p := 1], idx[1..]);
        assert forall k :: 1 <= k < |idx| ==> idx[k] == idx[1..][k - 1];
        assert r.Ok? ==> forall i :: 0 <= i < |row| ==>
          (Listed(idx, |row|, i) <==> i == p || Listed(idx[1..], |row|, i))
        by {
          if r.Ok? {
            forall i | 0 <= i < |row|
              ensures Listed(idx, |row|, i) <==> i == p || Listed(idx[1..], |row|, i)
            {
              if Listed(idx[1..], |row|, i) {
                var k :| 0 <= k < |idx[1..]| && PyIndex(idx[1..][k], |row|) == Some(i);
                assert PyIndex(idx[k + 1], |row|) == Some(i);
              }
              if i == p {
                assert PyIndex(idx[0], |row|) == Some(i);
              }
            }
          }
        }
        r
  }

  /** One line of the schema descriptor turned into a 0/1 row of length n:
      the text after the first `(`, with `(`, `)` and `,` deleted, split at
      every `A`; each piece after the first read by `int()` and marked.
      IndexError when the line has no `(` or an index is out of range,
      ValueError when a piece is not an integer. */
  function SchemaLine(line: string, n: int): (r: Result<seq<int>>)
    ensures r.Ok? ==> |r.value| == Max0(n)
    ensures r.Ok? ==> forall i :: 0 <= i < |r.value| ==> r.value[i] == 0 || r.value[i] == 1
    ensures r.Err? ==> r.error == IndexError || r.error == ValueError
    ensures '(' !in line ==> r == Err(IndexError)
  {
    var out := Split(line, "(");
    if |out| < 2 then
      assert '(' !in line ==> out == [line] by {
        if '(' !in line {
          SplitNoSeparator(line, "(");
        }
      }
      Err(IndexError)
    else
      assert '(' in line by {
        if '(' !in line {
          SplitNoSeparator(line, "(");
        }
      }
      var attrs := Split(DeleteChars(out[1], Punctuation), "A")[1..];
      match ParseInts(attrs)
      case Err(e) => Err(e)
      case Ok(idx) => MarkAll(Zeros(n), idx)
  }

  /** The characters a schema line's attribute list loses before it is
      split. */
  const Punctuation: set<char> := {'(', ')', ','}

  /** `A<i>` for each listed attribute. */
  function Prefixed(ds: seq<string>): (r: seq<string>)
    ensures |r| == |ds|
    ensures forall k :: 0 <= k < |ds| ==> r[k] == "A" + ds[k]
  {
    seq(|ds|, k requires 0 <= k < |ds| => "A" + ds[k])
  }

  function Numerals(idx: seq<nat>): (r: seq<string>)
    ensures |r| == |idx|
    ensures forall k :: 0 <= k < |idx| ==> r[k] == NatToString(idx[k])
  {
    seq(|idx|, k requires 0 <= k < |idx| => NatToString(idx[k]))
  }

  /** The descriptor line `name(A<i>,A<j>,...)` for a relation. */
  function RenderSchemaLine(name: string, idx: seq<nat>): string
  {
    name + "(" + Join(Prefixed(Numerals(idx)), ",") + ")"
  }

  predicate Plain(s: string)
  {
    forall i :: 0 <= i < |s| ==> s[i] !in Punctuation && s[i] != 'A'
  }

  /** Deleting the commas of `A<d0>,A<d1>,...` leaves the pieces d0, d1,
      ... each preceded by an `A`. */
  lemma {:induction false} TokensWithoutCommas(ds: seq<string>)
    requires forall k :: 0 <= k < |ds| ==> Plain(ds[k])
    ensures DeleteChars(Join(Prefixed(ds), ","), Punctuation) == Join([""] + ds, "A")
  {
    var cs := Punctuation;
    if |ds| == 0 {
      assert Prefixed(ds) == [];
    } else {
      var first := "A" + ds[0];
      assert DeleteChars(first, cs) == first by {
        assert Plain(ds[0]);
        DeleteCharsNone(first, cs);
      }
      if |ds| == 1 {
        assert Prefixed(ds) == [first];
        JoinPrefix("", ds, "A");
      } else {
        var rest := Prefixed(ds[1..]);
        var jr := Join(rest, ",");
        var tail := Join(ds[1..], "A");
        PrefixedCons(ds);
        AFirstCons(ds, "A");
        assert DeleteChars(jr, cs) == "A" + tail by {
          TokensWithoutCommas(ds[1..]);
          JoinPrefix("", ds[1..], "A");
        }
        DeleteCommaBetween(first, jr, tail, cs);
      }
    }
  }

  lemma PrefixedCons(ds: seq<string>)
    requires |ds| > 1
    ensures Join(Prefixed(ds), ",") == "A" + ds[0] + "," + Join(Prefixed(ds[1..]), ",")
  {
    assert Prefixed(ds) == ["A" + ds[0]] + Prefixed(ds[1..]);
    JoinPrefix("A" + ds[0], Prefixed(ds[1..]), ",");
  }

  lemma AFirstCons(ds: seq<string>, sep: string)
    requires |ds| > 1
    ensures Join([""] + ds, sep) == sep + ds[0] + sep + Join(ds[1..], sep)
  {
    var tail := Join(ds[1..], sep);
    assert Join([""] + ds, sep) == "" + sep + Join(ds, sep) by {
      JoinPrefix("", ds, sep);
    }
    assert Join(ds, sep) == ds[0] + sep + tail by {
      assert ds == [ds[0]] + ds[1..];
      JoinPrefix(ds[0], ds[1..], sep);
    }
    assert "" + sep + (ds[0] + sep + tail) == sep + ds[0] + sep + tail;
  }

  /** A comma between a piece without punctuation and a text that loses
      its commas to `A` + tail goes too. */
  lemma DeleteCommaBetween(first: string, jr: string, tail: string, cs: set<char>)
    requires ',' in cs
    requires DeleteChars(first, cs) == first
    requires DeleteChars(jr, cs) == "A" + tail
    ensures DeleteChars(first + "," + jr, cs) == first + "A" + tail
  {
    DeleteCharsConcat(first + ",", jr, cs);
    DeleteCharsConcat(first, ",", cs);
    assert DeleteChars(",", cs) == "";
  }

  /** Reading a rendered schema line marks exactly the listed attributes:
      the parse is `MarkAll` of the listed indices over a row of zeros, so
      row[i] is 1 iff `A<i>` is listed and an index of n or more is an
      IndexError. */
  lemma SchemaLineRoundTrip(name: string, idx: seq<nat>, n: int)
    requires '(' !in name
    ensures SchemaLine(RenderSchemaLine(name, idx), n) == MarkAll(Zeros(n), idx)
  {
    RenderedPieces(name, idx);
    NumeralsParse(idx);
  }

  lemma RenderedPieces(name: string, idx: seq<nat>)
    requires '(' !in name
    ensures var out := Split(RenderSchemaLine(name, idx), "(");
      |out| == 2 && Split(DeleteChars(out[1], Punctuation), "A")[1..] == Numerals(idx)
  {
    var ds := Numerals(idx);
    var list := Join(Prefixed(ds), ",");
    var body := list + ")";
    assert '(' !in list by {
      JoinAvoids(Prefixed(ds), ",", '(');
    }
    assert RenderSchemaLine(name, idx) == name + "(" + body;
    SplitAfterPiece(name, "(", body);
    SplitNoSeparator(body, "(");
    assert Split(RenderSchemaLine(name, idx), "(") == [name, body];
    forall k | 0 <= k < |ds|
      ensures Plain(ds[k])
    {
    }
    TokensWithoutCommas(ds);
    DeleteCharsConcat(list, ")", Punctuation);
    assert DeleteChars(")", Punctuation) == "";
    var pieces := [""] + ds;
    assert DeleteChars(body, Punctuation) == Join(pieces, "A");
    SplitJoin(pieces, "A");
    assert pieces[1..] == ds;
  }

  lemma NumeralsParse(idx: seq<nat>)
    ensures ParseInts(Numerals(idx)) == Ok(idx)
  {
    var ds := Numerals(idx);
    forall k | 0 <= k < |idx|
      ensures ParseInt(ds[k]) == Ok(idx[k] as int)
    {
      ParseIntToString(idx[k]);
    }
    assert ParseInts(ds).value == idx;
  }

  /** The row depends only on which indices are listed: listing order and
      repetitions do not matter. */
  lemma SchemaRowOrderIndependent(row: seq<int>, a: seq<int>, b: seq<int>)
    requires forall x :: x in a <==> x in b
    ensures MarkAll(row, a) == MarkAll(row, b)
  {
    SameListed(row, a, b);
    SameListed(row, b, a);
    var ra := MarkAll(row, a);
    var rb := MarkAll(row, b);
    if ra.Ok? {
      forall k | 0 <= k < |b|
        ensures PyIndex(b[k], |row|).Some?
      {
        assert b[k] in a;
        var k2 :| 0 <= k2 < |a| && a[k2] == b[k];
      }
      assert rb.Ok?;
      assert ra.value == rb.value;
    } else {
      var k :| 0 <= k < |a| && PyIndex(a[k], |row|).None?;
      assert a[k] in b;
      var k2 :| 0 <= k2 < |b| && b[k2] == a[k];
      assert rb.Err?;
    }
  }

  lemma SameListed(row: seq<int>, a: seq<int>, b: seq<int>)
    requires forall x :: x in a ==> x in b
    ensures forall i :: Listed(a, |row|, i) ==> Listed(b, |row|, i)
  {
    forall i | Listed(a, |row|, i)
      ensures Listed(b, |row|, i)
    {
      var k :| 0 <= k < |a| && PyIndex(a[k], |row|) == Some(i);
      assert a[k] in b;
      var k2 :| 0 <= k2 < |b| && b[k2] == a[k];
      assert PyIndex(b[k2], |row|) == Some(i);
    }
  }

  /** The relations file of the tests reads as the test schema. */
  lemma TestRelationsFile()
    ensures SchemaLine("R1(A1,A2)", 6) == Ok(SharesJoin.TestSchema()[0])
    ensures SchemaLine("R2(A2,A3,A5)", 6) == Ok(SharesJoin.TestSchema()[1])
    ensures SchemaLine("R3(A3,A4)", 6) == Ok(SharesJoin.TestSchema()[2])
  {
    FirstTestRelation();
    SecondTestRelation();
    ThirdTestRelation();
  }

  lemma FirstTestRelation()
    ensures SchemaLine("R1(A1,A2)", 6) == Ok(SharesJoin.TestSchema()[0])
  {
    Rendered("R1", [1, 2], ["1", "2"], "R1(A1,A2)");
    TestLine("R1", [1, 2], "R1(A1,A2)", 0);
  }

  lemma SecondTestRelation()
    ensures SchemaLine("R2(A2,A3,A5)", 6) == Ok(SharesJoin.TestSchema()[1])
  {
    var p := Prefixed(["2", "3", "5"]);
    assert p[0] == "A2" && p[1] == "A3" && p[2] == "A5";
    assert p == ["A2", "A3", "A5"];
    assert ["A2", "A3", "A5"][1..] == ["A3", "A5"];
    assert Join(["A3", "A5"], ",") == "A3,A5";
    assert Join(["A2", "A3", "A5"], ",") == "A2,A3,A5";
    Rendered("R2", [2, 3, 5], ["2", "3", "5"], "R2(A2,A3,A5)");
    TestLine("R2", [2, 3, 5], "R2(A2,A3,A5)", 1);
  }

  lemma ThirdTestRelation()
    ensures SchemaLine("R3(A3,A4)", 6) == Ok(SharesJoin.TestSchema()[2])
  {
    Rendered("R3", [3, 4], ["3", "4"], "R3(A3,A4)");
    TestLine("R3", [3, 4], "R3(A3,A4)", 2);
  }

  lemma Rendered(name: string, idx: seq<nat>, ds: seq<string>, line: string)
    requires |ds| == |idx| && forall k :: 0 <= k < |idx| ==> idx[k] < 10 && ds[k] == [DigitChar(idx[k])]
    requires line == name + "(" + Join(Prefixed(ds), ",") + ")"
    ensures line == RenderSchemaLine(name, idx)
  {
    assert Numerals(idx) == ds;
  }

  lemma TestLine(name: string, idx: seq<nat>, line: string, r: nat)
    requires '(' !in name && line == RenderSchemaLine(name, idx)
    requires r < 3
    requires forall k :: 0 <= k < |idx| ==> idx[k] < 6
    requires forall i :: 0 <= i < 6 ==> SharesJoin.TestSchema()[r][i] == if i in idx then 1 else 0
    ensures SchemaLine(line, 6) == Ok(SharesJoin.TestSchema()[r])
  {
    SchemaLineRoundTrip(name, idx, 6);
    MarkZeros(idx, 6, SharesJoin.TestSchema()[r]);
  }

  /** Marking in-range indices over a row of zeros gives the row that is 1
      exactly at the listed positions. */
  lemma MarkZeros(idx: seq<nat>, n: nat, row: seq<int>)
    requires forall k :: 0 <= k < |idx| ==> idx[k] < n
    requires |row| == n
    requires forall i :: 0 <= i < n ==> row[i] == if i in idx then 1 else 0
    ensures MarkAll(Zeros(n), idx) == Ok(row)
  {
    var m := MarkAll(Zeros(n), idx);
    assert forall k :: 0 <= k < |idx| ==> PyIndex(idx[k], n) == Some(idx[k] as nat);
    forall i | 0 <= i < n
      ensures m.value[i] == row[i]
    {
      if i in idx {
        var k :| 0 <= k < |idx| && idx[k] == i;
        assert PyIndex(idx[k], n) == Some(i);
      }
    }
    assert m.value == row;
  }

  // ---------------------------------------------------------------------
  // Size lines: `R1   5000`

  /** The integer after the first three-space separator of a size line;
      IndexError without a separator, ValueError when it is no integer. */
  function SizeLine(line: string): (r: Result<int>)
    ensures r.Err? ==> r.error == IndexError || r.error == ValueError
  {
    var out := Split(line, "   ");
    if |out| < 2 then Err(IndexError) else ParseInt(out[1])
  }

  /** The sizes of a size descriptor, one per line in file order; the
      error of the first line that fails. */
  function RelationSizes(lines: seq<string>): Result<seq<int>>
  {
    MapResult(lines, SizeLine)
  }

  /** A size line written as `name   size` reads back as the size. */
  lemma SizeLineRoundTrip(name: string, size: int)
    requires ' ' !in name
    ensures SizeLine(name + "   " + IntToString(size)) == Ok(size)
  {
    var t := IntToString(size);
    SplitAfterPiece(name, "   ", t);
    assert ' ' !in t;
    SplitNoSeparator(t, "   ");
    ParseIntToString(size);
  }

  /** The size file of the tests reads as [5000, 10000, 500]. */
  lemma TestSizesFile()
    ensures RelationSizes(["R1   5000", "R2   10000", "R3   500"]) == Ok([5000, 10000, 500])
  {
    var lines := ["R1   5000", "R2   10000", "R3   500"];
    FirstTestSize();
    SecondTestSize();
    ThirdTestSize();
    var r := RelationSizes(lines);
    assert r.Ok?;
    assert r.value == [5000, 10000, 500];
  }

  lemma FirstTestSize()
    ensures SizeLine("R1   5000") == Ok(5000)
  {
    assert IntToString(5000) == "5000";
    assert "R1   5000" == "R1" + "   " + "5000";
    SizeLineRoundTrip("R1", 5000);
  }

  lemma SecondTestSize()
    ensures SizeLine("R2   10000") == Ok(10000)
  {
    assert IntToString(10000) == "10000";
    assert "R2   10000" == "R2" + "   " + "10000";
    SizeLineRoundTrip("R2", 10000);
  }

  lemma ThirdTestSize()
    ensures SizeLine("R3   500") == Ok(500)
  {
    assert IntToString(500) == "500";
    assert "R3   500" == "R3" + "   " + "500";
    SizeLineRoundTrip("R3", 500);
  }

  // ---------------------------------------------------------------------
  // Heavy-hitter lines: `A2   2   R1:1000,R2:1000,R3:1000`

  /** The fields of one heavy-hitter line: the attribute as read after the
      first `A`, the heavy value, the per-relation fractions in listing
      order, and the list slot as read from the text after the first
      character. */
  datatype HeavyLine = HeavyLine(attribute: int, value: int, fractions: seq<real>, slot: int)

  /** `float(sk.split(':')[1])`; the relation name before the colon is
      not looked at. IndexError without a colon. */
  function Fraction(piece: string): (r: Result<real>)
    ensures r.Err? ==> r.error == IndexError || r.error == ValueError
  {
    var parts := Split(piece, ":");
    if |parts| < 2 then Err(IndexError) else ParseDecimal(parts[1])
  }

  /** `[float(sk.split(':')[1]) for sk in pieces]`. */
  function Fractions(pieces: seq<string>): Result<seq<real>>
  {
    MapResult(pieces, Fraction)
  }

  /** `s[1:]`. */
  function DropFirst(s: string): string
  {
    if |s| == 0 then "" else s[1..]
  }

  /** One heavy-hitter line, fields separated by three spaces, read in the
      order the source reads them, each failure raising its own error. */
  function HeavyLineOf(line: string): (r: Result<HeavyLine>)
    ensures r.Err? ==> r.error == IndexError || r.error == ValueError
  {
    var out := Split(line, "   ");
    var head := Split(out[0], "A");
    if |head| < 2 then Err(IndexError)
    else if ParseInt(head[1]).Err? then Err(ValueError)
    else if |out| < 2 then Err(IndexError)
    else if ParseInt(out[1]).Err? then Err(ValueError)
    else if |out| < 3 then Err(IndexError)
    else
      match Fractions(Split(out[2], ","))
      case Err(e) => Err(e)
      case Ok(fr) =>
        var slot := ParseInt(DropFirst(out[0]));
        if slot.Err? then Err(ValueError)
        else Ok(HeavyLine(ParseInt(head[1]).value, ParseInt(out[1]).value, fr, slot.value))
  }

  /** How a line is read once its three fields are known. */
  lemma ReadHeavyFields(line: string, name: string, vs: string, tail: string, digits: string,
                        a: int, v: int)
    requires Split(line, "   ") == [name, vs, tail]
    requires Split(name, "A") == ["", digits] && DropFirst(name) == digits
    requires ParseInt(digits) == Ok(a) && ParseInt(vs) == Ok(v)
    ensures var f := Fractions(Split(tail, ","));
      (f.Ok? ==> HeavyLineOf(line) == Ok(HeavyLine(a, v, f.value, a))) &&
      (f.Err? ==> HeavyLineOf(line) == Err(f.error))
  {
  }

  /** The three fields of a line whose first two fields hold no blank. */
  lemma HeavyFields(name: string, vs: string, tail: string)
    requires ' ' !in name && ' ' !in vs && ' ' !in tail
    ensures Split(name + "   " + vs + "   " + tail, "   ") == [name, vs, tail]
  {
    assert Split(vs + "   " + tail, "   ") == [vs, tail] by {
      SplitNoSeparator(tail, "   ");
      SplitAfterPiece(vs, "   ", tail);
    }
    assert name + "   " + vs + "   " + tail == name + "   " + (vs + "   " + tail);
    SplitAfterPiece(name, "   ", vs + "   " + tail);
  }

  /** `A<a>` splits at its `A` into nothing and the numeral. */
  lemma AttributeName(a: nat)
    ensures Split("A" + NatToString(a), "A") == ["", NatToString(a)]
    ensures DropFirst("A" + NatToString(a)) == NatToString(a)
  {
    assert "A" + NatToString(a) == "" + "A" + NatToString(a);
    SplitAfterPiece("", "A", NatToString(a));
    assert 'A' !in NatToString(a) by {
      assert AllDigits(NatToString(a));
    }
    SplitNoSeparator(NatToString(a), "A");
  }

  /** A line written as `A<a>   <v>   <pieces joined by commas>` reads as
      attribute a, heavy value v, list slot a and the fractions of the
      pieces, or fails exactly where the pieces fail. */
  lemma HeavyLineRoundTrip(a: nat, v: int, pieces: seq<string>)
    requires |pieces| >= 1
    requires forall k :: 0 <= k < |pieces| ==> ' ' !in pieces[k] && ',' !in pieces[k]
    ensures var r := HeavyLineOf("A" + NatToString(a) + "   " + IntToString(v) + "   " + Join(pieces, ","));
      var f := Fractions(pieces);
      (f.Ok? ==> r == Ok(HeavyLine(a, v, f.value, a))) && (f.Err? ==> r == Err(f.error))
  {
    var digits := NatToString(a);
    var name := "A" + digits;
    var vs := IntToString(v);
    var tail := Join(pieces, ",");
    assert Split(name + "   " + vs + "   " + tail, "   ") == [name, vs, tail] by {
      assert ' ' !in name by {
        assert AllDigits(digits);
      }
      IntToStringAvoids(v, ' ');
      JoinAvoids(pieces, ",", ' ');
      HeavyFields(name, vs, tail);
    }
    assert Split(tail, ",") == pieces by {
      SplitJoin(pieces, ",");
    }
    assert ParseInt(digits) == Ok(a) && ParseInt(vs) == Ok(v) by {
      ParseIntToString(a);
      ParseIntToString(v);
    }
    AttributeName(a);
    ReadHeavyFields(name + "   " + vs + "   " + tail, name, vs, tail, digits, a, v);
  }

  // ---------------------------------------------------------------------
  // The heavy-hitter catalogue: attribute -> heavy value -> fractions

  datatype HeavyEntry = HeavyEntry(value: int, fractions: seq<real>)

  datatype AttrEntry = AttrEntry(attribute: int, values: seq<HeavyEntry>)

  /** `hhinfo['attributes']` as association lists in insertion order. */
  type Catalogue = seq<AttrEntry>

  predicate UniqueValues(vs: seq<HeavyEntry>)
  {
    forall i, j :: 0 <= i < j < |vs| ==> vs[i].value != vs[j].value
  }
  predicate HasValue(vs: seq<HeavyEntry>, v: int)
  {
    exists k :: 0 <= k < |vs| && vs[k].value == v
  }
  /** `d[v]` on one attribute's value list; None where Python raises
      KeyError. */
  function FindValue(vs: seq<HeavyEntry>, v: int): (r: Option<seq<real>>)
    ensures r.Some? <==> HasValue(vs, v)
  {
    if |vs| == 0 then None
    else if vs[0].value == v then Some(vs[0].fractions)
    else
      var r := FindValue(vs[1..], v);
      assert HasValue(vs[1..], v) ==> HasValue(vs, v) by {
        if HasValue(vs[1..], v) {
          var k :| 0 <= k < |vs[1..]| && vs[1..][k].value == v;
          assert vs[k + 1].value == v;
        }
      }
      r
  }
  lemma HasValueCons(vs: seq<HeavyEntry>, w: int)
    requires |vs| > 0
    ensures HasValue(vs, w) <==> vs[0].value == w || HasValue(vs[1..], w)
  {
    if HasValue(vs, w) && vs[0].value != w {
      var k :| 0 <= k < |vs| && vs[k].value == w;
      assert vs[1..][k - 1].value == w;
    }
    if HasValue(vs[1..], w) {
      var k :| 0 <= k < |vs[1..]| && vs[1..][k].value == w;
      assert vs[k + 1].value == w;
    }
  }

  /** `d[v] = fr` on one attribute's value list: an existing value is
      overwritten in place, a new one appended. */
  function PutValue(vs: seq<HeavyEntry>, v: int, fr: seq<real>): (r: seq<HeavyEntry>)
    ensures FindValue(r, v) == Some(fr)
    ensures forall w :: w != v ==> FindValue(r, w) == FindValue(vs, w)
    ensures |r| > 0
  {
    if |vs| == 0 then [HeavyEntry(v, fr)]
    else if vs[0].value == v then
      var r := [HeavyEntry(v, fr)] + vs[1..];
      assert r[1..] == vs[1..];
      r
    else
      var rest := PutValue(vs[1..], v, fr);
      var r := [vs[0]] + rest;
      assert r[1..] == rest;
      r
  }

  /** The values after the first are those of the tail. */
  lemma UniqueCons(vs: seq<HeavyEntry>)
    requires |vs| > 0
    ensures UniqueValues(vs) <==> UniqueValues(vs[1..]) && !HasValue(vs[1..], vs[0].value)
  {
    if UniqueValues(vs) {
      forall k | 0 <= k < |vs[1..]|
        ensures vs[1..][k].value != vs[0].value
      {
        assert vs[1..][k] == vs[k + 1];
      }
    }
    if UniqueValues(vs[1..]) && !HasValue(vs[1..], vs[0].value) {
      forall i, j | 0 <= i < j < |vs|
        ensures vs[i].value != vs[j].value
      {
        if i == 0 {
          assert vs[1..][j - 1] == vs[j];
        } else {
          assert vs[1..][i - 1] == vs[i] && vs[1..][j - 1] == vs[j];
        }
      }
    }
  }

  /** Writing a value keeps the values of a list distinct. */
  lemma {:induction false} PutValueUnique(vs: seq<HeavyEntry>, v: int, fr: seq<real>)
    requires UniqueValues(vs)
    ensures UniqueValues(PutValue(vs, v, fr))
  {
    var r := PutValue(vs, v, fr);
    if |vs| > 0 {
      UniqueCons(vs);
    }
    if |vs| > 0 && vs[0].value == v {
      assert r[1..] == vs[1..] && r[0].value == vs[0].value;
      UniqueCons(r);
    } else if |vs| > 0 {
      var rest := PutValue(vs[1..], v, fr);
      PutValueUnique(vs[1..], v, fr);
      assert r == [vs[0]] + rest && r[1..] == rest;
      assert !HasValue(rest, vs[0].value) by {
        assert FindValue(rest, vs[0].value) == FindValue(vs[1..], vs[0].value);
      }
      UniqueCons(r);
    }
  }

  predicate HasAttr(cat: Catalogue, a: int)
  {
    exists k :: 0 <= k < |cat| && cat[k].attribute == a
  }

  predicate UniqueAttributes(cat: Catalogue)
  {
    forall i, j :: 0 <= i < j < |cat| ==> cat[i].attribute != cat[j].attribute
  }

  /** A catalogue as the reader builds it: no attribute or value twice,
      and every attribute with at least one heavy value. */
  predicate WellFormed(cat: Catalogue)
  {
    UniqueAttributes(cat) &&
    forall i :: 0 <= i < |cat| ==> UniqueValues(cat[i].values) && |cat[i].values| > 0
  }

  lemma HasAttrCons(cat: Catalogue, a: int)
    requires |cat| > 0
    ensures HasAttr(cat, a) <==> cat[0].attribute == a || HasAttr(cat[1..], a)
  {
    if HasAttr(cat, a) && cat[0].attribute != a {
      var k :| 0 <= k < |cat| && cat[k].attribute == a;
      assert cat[1..][k - 1].attribute == a;
    }
    if HasAttr(cat[1..], a) {
      var k :| 0 <= k < |cat[1..]| && cat[1..][k].attribute == a;
      assert cat[k + 1].attribute == a;
    }
  }

  /** `hhinfo['attributes'][a]`; None where Python raises KeyError. */
  function FindAttr(cat: Catalogue, a: int): (r: Option<seq<HeavyEntry>>)
    ensures r.Some? <==> HasAttr(cat, a)
    ensures WellFormed(cat) && r.Some? ==> UniqueValues(r.value) && |r.value| > 0
  {
    if |cat| == 0 then None
    else
      HasAttrCons(cat, a);
      if cat[0].attribute == a then Some(cat[0].values)
      else
        assert WellFormed(cat) ==> WellFormed(cat[1..]) by {
          if WellFormed(cat) {
            forall i | 0 <= i < |cat[1..]|
              ensures UniqueValues(cat[1..][i].values) && |cat[1..][i].values| > 0
            {
              assert cat[1..][i] == cat[i + 1];
            }
          }
        }
        FindAttr(cat[1..], a)
  }

  /** `hhinfo['attributes'][a][v] = fr`, creating the attribute's entry
      when it is new. */
  function Put(cat: Catalogue, a: int, v: int, fr: seq<real>): (r: Catalogue)
    ensures FindAttr(r, a).Some? && FindValue(FindAttr(r, a).value, v) == Some(fr)
    ensures forall w :: w != v ==>
      FindValue(FindAttr(r, a).value, w) == (if FindAttr(cat, a).Some? then FindValue(FindAttr(cat, a).value, w) else None)
    ensures forall b :: b != a ==> FindAttr(r, b) == FindAttr(cat, b)
  {
    if |cat| == 0 then [AttrEntry(a, [HeavyEntry(v, fr)])]
    else if cat[0].attribute == a then
      var r := [AttrEntry(a, PutValue(cat[0].values, v, fr))] + cat[1..];
      assert r[1..] == cat[1..];
      r
    else
      var rest := Put(cat[1..], a, v, fr);
      var r := [cat[0]] + rest;
      assert r[1..] == rest;
      r
  }

  /** The attributes after the first are those of the tail. */
  lemma WellFormedCons(cat: Catalogue)
    requires |cat| > 0
    ensures WellFormed(cat) <==>
      WellFormed(cat[1..]) && !HasAttr(cat[1..], cat[0].attribute) &&
      UniqueValues(cat[0].values) && |cat[0].values| > 0
  {
    if WellFormed(cat) {
      forall k | 0 <= k < |cat[1..]|
        ensures cat[1..][k].attribute != cat[0].attribute
      {
        assert cat[1..][k] == cat[k + 1];
      }
      forall i | 0 <= i < |cat[1..]|
        ensures UniqueValues(cat[1..][i].values) && |cat[1..][i].values| > 0
      {
        assert cat[1..][i] == cat[i + 1];
      }
      forall i, j | 0 <= i < j < |cat[1..]|
        ensures cat[1..][i].attribute != cat[1..][j].attribute
      {
        assert cat[1..][i] == cat[i + 1] && cat[1..][j] == cat[j + 1];
      }
    }
    if WellFormed(cat[1..]) && !HasAttr(cat[1..], cat[0].attribute) &&
       UniqueValues(cat[0].values) && |cat[0].values| > 0 {
      forall i, j | 0 <= i < j < |cat|
        ensures cat[i].attribute != cat[j].attribute
      {
        if i == 0 {
          assert cat[1..][j - 1] == cat[j];
        } else {
          assert cat[1..][i - 1] == cat[i] && cat[1..][j - 1] == cat[j];
        }
      }
      forall i | 0 <= i < |cat|
        ensures UniqueValues(cat[i].values) && |cat[i].values| > 0
      {
        if i > 0 {
          assert cat[1..][i - 1] == cat[i];
        }
      }
    }
  }

  /** Writing an entry keeps a catalogue well formed. */
  lemma {:induction false} PutWellFormed(cat: Catalogue, a: int, v: int, fr: seq<real>)
    requires WellFormed(cat)
    ensures WellFormed(Put(cat, a, v, fr))
  {
    var r := Put(cat, a, v, fr);
    if |cat| == 0 {
      assert UniqueValues(r[0].values);
    } else {
      WellFormedCons(cat);
      if cat[0].attribute == a {
        assert r[1..] == cat[1..] && r[0].attribute == a;
        PutValueUnique(cat[0].values, v, fr);
        WellFormedCons(r);
      } else {
        var rest := Put(cat[1..], a, v, fr);
        PutWellFormed(cat[1..], a, v, fr);
        assert r == [cat[0]] + rest && r[1..] == rest;
        assert !HasAttr(rest, cat[0].attribute) by {
          assert FindAttr(rest, cat[0].attribute) == FindAttr(cat[1..], cat[0].attribute);
        }
        WellFormedCons(r);
      }
    }
  }

  // ---------------------------------------------------------------------
  // Reading the heavy-hitter descriptor

  /** The catalogue and the per-attribute type lists `hh`. */
  datatype HeavyHitters = HeavyHitters(catalogue: Catalogue, hh: seq<seq<Val>>)

  /** `[['_'] for x in xrange(n)]`. */
  function InitialLists(n: int): (r: seq<seq<Val>>)
    ensures |r| == Max0(n)
    ensures forall i :: 0 <= i < |r| ==> r[i] == [Wild]
  {
    seq(Max0(n), i => [Wild])
  }

  /** One line's effect: the catalogue entry is written, then the heavy
      value is appended to the type list at the line's slot. A line that
      did not parse raises its error. */
  function AddHeavyLine(st: HeavyHitters, line: Result<HeavyLine>): (r: Result<HeavyHitters>)
  {
    if line.Err? then Err(line.error)
    else
      var h := line.value;
      match PyIndex(h.slot, |st.hh|)
      case None => Err(IndexError)
      case Some(p) =>
        Ok(HeavyHitters(Put(st.catalogue, h.attribute, h.value, h.fractions),
                        st.hh[p := st.hh[p] + [V(h.value)]]))
  }

  /** Each line parsed and its slot lies within the n type lists. */
  predicate Readable(parsed: seq<Result<HeavyLine>>, n: int)
  {
    forall k :: 0 <= k < |parsed| ==> parsed[k].Ok? && PyIndex(parsed[k].value.slot, Max0(n)).Some?
  }

  /** The shape of what the reader builds for n attributes: n type lists,
      each `'_'` followed by heavy values, and a well-formed catalogue. */
  predicate Shaped(st: HeavyHitters, n: int)
  {
    |st.hh| == Max0(n) &&
    (forall i :: 0 <= i < |st.hh| ==>
      |st.hh[i]| >= 1 && st.hh[i][0] == Wild &&
      forall t :: 1 <= t < |st.hh[i]| ==> st.hh[i][t].V?) &&
    WellFormed(st.catalogue)
  }

  /** Applying a line keeps the shape. */
  lemma AddHeavyLineShaped(st: HeavyHitters, line: Result<HeavyLine>, n: int)
    requires Shaped(st, n)
    ensures AddHeavyLine(st, line).Ok? <==> Readable([line], n)
    ensures AddHeavyLine(st, line).Ok? ==> Shaped(AddHeavyLine(st, line).value, n)
  {
    assert Readable([line], n) <==> line.Ok? && PyIndex(line.value.slot, Max0(n)).Some? by {
      assert [line][0] == line;
    }
    if AddHeavyLine(st, line).Ok? {
      var h := line.value;
      PutWellFormed(st.catalogue, h.attribute, h.value, h.fractions);
      var p := PyIndex(h.slot, |st.hh|).value;
      var hh := st.hh[p := st.hh[p] + [V(h.value)]];
      assert forall i :: 0 <= i < |hh| && i != p ==> hh[i] == st.hh[i];
      assert forall t :: 1 <= t < |hh[p]| ==> hh[p][t] == if t < |st.hh[p]| then st.hh[p][t] else V(h.value);
    }
  }

  /** The parsed lines applied in file order; the first failing line ends
      the reading with its error. Reading succeeds exactly when every line
      parsed and names a slot in range, and what it builds is shaped. */
  function ReadParsed(parsed: seq<Result<HeavyLine>>, n: int): (r: Result<HeavyHitters>)
    ensures r.Ok? <==> Readable(parsed, n)
    ensures r.Ok? ==> Shaped(r.value, n)
    decreases |parsed|
  {
    if |parsed| == 0 then Ok(HeavyHitters([], InitialLists(n)))
    else
      var init := parsed[..|parsed| - 1];
      var line := parsed[|parsed| - 1];
      assert Readable(parsed, n) <==> Readable(init, n) && Readable([line], n) by {
        ReadableSnoc(parsed, n);
      }
      match ReadParsed(init, n)
      case Err(e) => Err(e)
      case Ok(st) =>
        AddHeavyLineShaped(st, line, n);
        AddHeavyLine(st, line)
  }

  /** Readability of all lines splits into the earlier ones and the last. */
  lemma ReadableSnoc(parsed: seq<Result<HeavyLine>>, n: int)
    requires |parsed| > 0
    ensures Readable(parsed, n) <==>
      Readable(parsed[..|parsed| - 1], n) && Readable([parsed[|parsed| - 1]], n)
  {
    var init := parsed[..|parsed| - 1];
    var last := [parsed[|parsed| - 1]];
    assert forall k :: 0 <= k < |init| ==> init[k] == parsed[k];
    assert last[0] == parsed[|parsed| - 1];
    if Readable(init, n) && Readable(last, n) {
      forall k | 0 <= k < |parsed|
        ensures parsed[k].Ok? && PyIndex(parsed[k].value.slot, Max0(n)).Some?
      {
        if k < |init| {
          assert parsed[k] == init[k];
        }
      }
    }
  }

  /** Every line of the descriptor parsed on its own. */
  function ParseAll(lines: seq<string>): (r: seq<Result<HeavyLine>>)
    ensures |r| == |lines|
  {
    seq(|lines|, k requires 0 <= k < |lines| => HeavyLineOf(lines[k]))
  }

  /** The line logic of readHeavyHitters over the lines of the file. */
  function ReadHeavyHitters(lines: seq<string>, n: int): Result<HeavyHitters>
  {
    ReadParsed(ParseAll(lines), n)
  }

  /** The heavy values of the lines whose slot denotes list i, in file
      order. */
  function SlotValues(hs: seq<HeavyLine>, n: nat, i: nat): seq<Val>
  {
    if |hs| == 0 then []
    else
      SlotValues(hs[..|hs| - 1], n, i) +
      (if PyIndex(hs[|hs| - 1].slot, n) == Some(i) then [V(hs[|hs| - 1].value)] else [])
  }

  /** The fractions of the last line naming attribute a and value v. */
  function LastFractions(hs: seq<HeavyLine>, a: int, v: int): Option<seq<real>>
  {
    if |hs| == 0 then None
    else if hs[|hs| - 1].attribute == a && hs[|hs| - 1].value == v then Some(hs[|hs| - 1].fractions)
    else LastFractions(hs[..|hs| - 1], a, v)
  }

  /** The hypothesis of the contents lemmas: every line parsed, as hs, and
      names a slot in range. */
  predicate ParsedAs(parsed: seq<Result<HeavyLine>>, hs: seq<HeavyLine>, n: int)
  {
    |hs| == |parsed| &&
    (forall k :: 0 <= k < |parsed| ==> parsed[k] == Ok(hs[k])) &&
    (forall k :: 0 <= k < |hs| ==> PyIndex(hs[k].slot, Max0(n)).Some?)
  }

  /** Reading one more well-formed line is one application of the line
      logic. */
  lemma ReadParsedStep(parsed: seq<Result<HeavyLine>>, hs: seq<HeavyLine>, n: int)
    requires |parsed| > 0 && ParsedAs(parsed, hs, n)
    ensures ParsedAs(parsed[..|parsed| - 1], hs[..|hs| - 1], n)
    ensures ReadParsed(parsed, n).Ok? && ReadParsed(parsed[..|parsed| - 1], n).Ok?
    ensures var st := ReadParsed(parsed[..|parsed| - 1], n).value;
      var h := hs[|hs| - 1];
      var p := PyIndex(h.slot, Max0(n)).value;
      ReadParsed(parsed, n).value ==
        HeavyHitters(Put(st.catalogue, h.attribute, h.value, h.fractions),
                     st.hh[p := st.hh[p] + [V(h.value)]])
  {
    assert Readable(parsed, n);
    var init := parsed[..|parsed| - 1];
    assert Readable(init, n);
  }

  /** When every line parsed and names a slot in range, list i is `'_'`
      followed by the heavy values of the lines naming slot i, in file
      order. */
  lemma {:induction false} ReadHeavyHittersLists(parsed: seq<Result<HeavyLine>>, hs: seq<HeavyLine>, n: int)
    requires ParsedAs(parsed, hs, n)
    ensures ReadParsed(parsed, n).Ok?
    ensures var st := ReadParsed(parsed, n).value;
      forall i :: 0 <= i < |st.hh| ==> st.hh[i] == [Wild] + SlotValues(hs, Max0(n), i)
    decreases |parsed|
  {
    assert Readable(parsed, n);
    if |parsed| > 0 {
      ReadParsedStep(parsed, hs, n);
      ReadHeavyHittersLists(parsed[..|parsed| - 1], hs[..|hs| - 1], n);
    }
  }

  /** When every line parsed and names a slot in range, the catalogue maps
      exactly the attribute/value pairs some line names, each to the
      fractions of the last line naming it. */
  lemma {:induction false} ReadHeavyHittersCatalogue(parsed: seq<Result<HeavyLine>>, hs: seq<HeavyLine>, n: int, a: int, v: int)
    requires ParsedAs(parsed, hs, n)
    ensures ReadParsed(parsed, n).Ok?
    ensures var cat := ReadParsed(parsed, n).value.catalogue;
      (if FindAttr(cat, a).Some? then FindValue(FindAttr(cat, a).value, v) else None) ==
        LastFractions(hs, a, v)
    decreases |parsed|
  {
    assert Readable(parsed, n);
    if |parsed| > 0 {
      ReadParsedStep(parsed, hs, n);
      ReadHeavyHittersCatalogue(parsed[..|parsed| - 1], hs[..|hs| - 1], n, a, v);
    }
  }

  // ---------------------------------------------------------------------
  // Residual joins

  /** `list(itertools.product(*hh))`: every residual join, the first
      attribute varying slowest. */
  function Combinations(hh: seq<seq<Val>>): seq<seq<Val>>
  {
    Cartesian(hh)
  }

  /** For type lists as the reader builds them, the first residual join is
      the all-ordinary one, there are Π |hh[i]| of them, a tuple is one of
      them exactly when it draws position i from list i, and with
      duplicate-free lists none repeats. */
  lemma CombinationsOfHeavyHitters(st: HeavyHitters)
    requires forall i :: 0 <= i < |st.hh| ==> |st.hh[i]| >= 1 && st.hh[i][0] == Wild
    ensures |Combinations(st.hh)| == Prod(Lengths(st.hh)) >= 1
    ensures Combinations(st.hh)[0] == seq(|st.hh|, i => Wild)
    ensures forall c :: c in Combinations(st.hh) <==>
      |c| == |st.hh| && forall i :: 0 <= i < |c| ==> c[i] in st.hh[i]
    ensures (forall i :: 0 <= i < |st.hh| ==> Distinct(st.hh[i])) ==> Distinct(Combinations(st.hh))
  {
    FirstAllWild(st.hh);
    assert forall c :: |c| == |st.hh| && (forall i :: 0 <= i < |c| ==> c[i] in st.hh[i]) ==>
      c in Combinations(st.hh)
    by {
      forall c | |c| == |st.hh| && forall i :: 0 <= i < |c| ==> c[i] in st.hh[i]
        ensures c in Combinations(st.hh)
      {
        CartesianComplete(st.hh, c);
      }
    }
    if forall i :: 0 <= i < |st.hh| ==> Distinct(st.hh[i]) {
      CartesianDistinct(st.hh);
    }
  }

  /** With every list headed by the wildcard, the product starts with the
      all-wildcard tuple. */
  lemma FirstAllWild(hh: seq<seq<Val>>)
    requires forall i :: 0 <= i < |hh| ==> |hh[i]| >= 1 && hh[i][0] == Wild
    ensures |Cartesian(hh)| >= 1 && Cartesian(hh)[0] == seq(|hh|, i => Wild)
  {
    CartesianFirst(hh);
    ConstantSeq(Cartesian(hh)[0], Wild);
  }

  /** A sequence whose every entry is x is the constant sequence of x. */
  lemma ConstantSeq<T>(s: seq<T>, x: T)
    requires forall i :: 0 <= i < |s| ==> s[i] == x
    ensures s == seq(|s|, i => x)
  {
  }

  /** `[x * y for x, y in zip(p, s)]`. */
  function ZipMul(p: seq<real>, s: seq<real>): (r: seq<real>)
    ensures |r| == Min(|p|, |s|)
    ensures forall j :: 0 <= j < |r| ==> r[j] == p[j] * s[j]
  {
    seq(Min(|p|, |s|), j requires 0 <= j < Min(|p|, |s|) => p[j] * s[j])
  }

  /** `[x + y for x, y in zip(p, s)]`. */
  function ZipAdd(p: seq<real>, s: seq<real>): (r: seq<real>)
    ensures |r| == Min(|p|, |s|)
    ensures forall j :: 0 <= j < |r| ==> r[j] == p[j] + s[j]
  {
    seq(Min(|p|, |s|), j requires 0 <= j < Min(|p|, |s|) => p[j] + s[j])
  }

  /** Multiplying the sizes by p and then by the later rates is
      multiplying them by all the rates, p[j] first. */
  lemma ScaleStep(p: seq<real>, s: seq<real>, j: int, rates: seq<real>)
    requires 0 <= j < Min(|p|, |s|)
    requires |rates| > 0 && rates[0] == p[j]
    ensures ScaleBy(s[j], rates) == ScaleBy(ZipMul(p, s)[j], rates[1..])
  {
    assert ZipMul(p, s)[j] == rates[0] * s[j];
  }

  /** `[x - y for x, y in zip(p, s)]`. */
  function ZipSub(p: seq<real>, s: seq<real>): (r: seq<real>)
    ensures |r| == Min(|p|, |s|)
    ensures forall j :: 0 <= j < |r| ==> r[j] == p[j] - s[j]
  {
    seq(Min(|p|, |s|), j requires 0 <= j < Min(|p|, |s|) => p[j] - s[j])
  }

  /** Every heavy value of the list has a fraction for relation j. */
  predicate CoversColumn(vs: seq<HeavyEntry>, j: int)
  {
    forall i :: 0 <= i < |vs| ==> j < |vs[i].fractions|
  }

  /** The fractions of relation j over all heavy values. */
  function Column(vs: seq<HeavyEntry>, j: int): (r: seq<real>)
    ensures |r| == |vs|
  {
    seq(|vs|, i requires 0 <= i < |vs| =>
      if 0 <= j < |vs[i].fractions| then vs[i].fractions[j] else 0.0)
  }

  /** `p_bar`: starting from `len` zeros, the heavy values' fraction lists
      added in, `zip` cutting the result to the shortest list. */
  function ColumnSums(vs: seq<HeavyEntry>, len: nat): (r: seq<real>)
    ensures |r| <= len
    ensures forall j :: 0 <= j < len ==> (j < |r| <==> CoversColumn(vs, j))
    ensures forall j :: 0 <= j < |r| ==> r[j] == SumReal(Column(vs, j))
  {
    if |vs| == 0 then seq(len, j => 0.0)
    else
      var rest := ColumnSums(vs[1..], len);
      assert forall j :: 0 <= j < len ==> (CoversColumn(vs, j) <==>
        j < |vs[0].fractions| && CoversColumn(vs[1..], j));
      assert forall j :: 0 <= j < |rest| && j < |vs[0].fractions| ==>
        Column(vs, j) == [vs[0].fractions[j]] + Column(vs[1..], j);
      ZipAdd(vs[0].fractions, rest)
  }

  /** The multiplier attribute with heavy values `vs` applies to relation
      j when its position holds `val`: one minus the heavy fractions for
      `'_'`, the value's own fraction (zero read as one) for a heavy value.
      None where the fraction lists are too short to reach relation j. */
  function RateAt(vs: seq<HeavyEntry>, val: Val, j: int): Option<real>
  {
    match val
    case Wild => if CoversColumn(vs, j) then Some(1.0 - SumReal(Column(vs, j))) else None
    case V(v) =>
      match FindValue(vs, v)
      case None => None
      case Some(fr) => if 0 <= j < |fr| then Some(if fr[j] == 0.0 then 1.0 else fr[j]) else None
  }

  /** The list `p` one attribute multiplies the sizes by. A heavy value
      missing from the attribute's entry is a KeyError. */
  function Multiplier(vs: seq<HeavyEntry>, val: Val, len: nat): (r: Result<seq<real>>)
    ensures r.Ok? <==> (val.V? ==> FindValue(vs, val.value).Some?)
    ensures r.Err? ==> r.error == KeyError
    ensures r.Ok? ==> forall j :: 0 <= j < len ==>
      (j < |r.value| <==> RateAt(vs, val, j).Some?) &&
      (j < |r.value| ==> r.value[j] == RateAt(vs, val, j).value)
  {
    match val
    case Wild =>
      var pbar := ColumnSums(vs, len);
      Ok(seq(|pbar|, j requires 0 <= j < |pbar| => 1.0 - pbar[j]))
    case V(v) =>
      match FindValue(vs, v)
      case None => Err(KeyError)
      case Some(fr) => Ok(seq(|fr|, j requires 0 <= j < |fr| => if fr[j] == 0.0 then 1.0 else fr[j]))
  }

  /** Every heavy value of the residual join from attribute k on is in the
      catalogue (else the rescaling raises KeyError). */
  predicate PricedFrom(comb: seq<Val>, k: nat, cat: Catalogue)
  {
    forall a :: k <= a < |comb| && comb[a].V? && FindAttr(cat, a).Some? ==>
      FindValue(FindAttr(cat, a).value, comb[a].value).Some?
  }

  /** Every catalogued attribute from k on has a multiplier for relation j. */
  predicate CoversFrom(comb: seq<Val>, k: nat, cat: Catalogue, j: int)
  {
    forall a :: k <= a < |comb| && FindAttr(cat, a).Some? ==>
      RateAt(FindAttr(cat, a).value, comb[a], j).Some?
  }

  /** The multiplier of attribute a for relation j; 1 for an attribute the
      catalogue does not hold. */
  function Factor(comb: seq<Val>, cat: Catalogue, a: nat, j: int): real
    requires a < |comb|
  {
    match FindAttr(cat, a)
    case None => 1.0
    case Some(vs) => match RateAt(vs, comb[a], j) case None => 1.0 case Some(x) => x
  }

  /** The multipliers of attributes k.. for relation j, in order. */
  function RatesFrom(comb: seq<Val>, k: nat, cat: Catalogue, j: int): (r: seq<real>)
    requires k <= |comb|
    ensures |r| == |comb| - k
    decreases |comb| - k
  {
    if k == |comb| then [] else [Factor(comb, cat, k, j)] + RatesFrom(comb, k + 1, cat, j)
  }

  /** An attribute the catalogue does not hold changes neither the
      pricing nor the reach. */
  lemma SkipPriced(comb: seq<Val>, k: nat, cat: Catalogue)
    requires k < |comb| && FindAttr(cat, k).None?
    ensures PricedFrom(comb, k, cat) == PricedFrom(comb, k + 1, cat)
  {
  }

  lemma SkipCovers(comb: seq<Val>, k: nat, cat: Catalogue, j: int)
    requires k < |comb| && FindAttr(cat, k).None?
    ensures CoversFrom(comb, k, cat, j) == CoversFrom(comb, k + 1, cat, j)
  {
  }

  /** A catalogued attribute is priced exactly when its own value is. */
  lemma ReplacePriced(comb: seq<Val>, k: nat, cat: Catalogue)
    requires k < |comb| && FindAttr(cat, k).Some?
    ensures PricedFrom(comb, k, cat) <==>
      (comb[k].V? ==> FindValue(FindAttr(cat, k).value, comb[k].value).Some?) && PricedFrom(comb, k + 1, cat)
  {
  }

  /** A catalogued attribute reaches relation j exactly when its
      multiplier does. */
  lemma ReplaceStepCovers(comb: seq<Val>, k: nat, sizes: seq<real>, cat: Catalogue, p: seq<real>, j: int)
    requires k < |comb| && FindAttr(cat, k).Some?
    requires Multiplier(FindAttr(cat, k).value, comb[k], |sizes|) == Ok(p)
    requires 0 <= j < |sizes|
    ensures CoversFrom(comb, k, cat, j) <==> j < |p| && CoversFrom(comb, k + 1, cat, j)
  {
  }

  /** The factor of a catalogued attribute is its multiplier's entry. */
  lemma FactorOfMultiplier(comb: seq<Val>, cat: Catalogue, k: nat, len: nat, p: seq<real>, j: int)
    requires k < |comb| && FindAttr(cat, k).Some?
    requires Multiplier(FindAttr(cat, k).value, comb[k], len) == Ok(p)
    requires 0 <= j < |p| && j < len
    ensures Factor(comb, cat, k, j) == p[j]
  {
    var vs := FindAttr(cat, k).value;
    assert RateAt(vs, comb[k], j).Some? && p[j] == RateAt(vs, comb[k], j).value;
  }

  /** The loop of replaceSize from attribute k on: absent attributes are
      skipped, others multiply the current sizes by their multiplier. It
      fails, with KeyError, exactly when a heavy value of the residual join
      is missing from its attribute's entry. */
  function ReplaceFrom(comb: seq<Val>, k: nat, sizes: seq<real>, cat: Catalogue): (r: Result<seq<real>>)
    requires k <= |comb|
    ensures r.Ok? <==> PricedFrom(comb, k, cat)
    ensures r.Err? ==> r.error == KeyError
    ensures r.Ok? ==> |r.value| <= |sizes|
    decreases |comb| - k
  {
    if k == |comb| then Ok(sizes)
    else
      var found := FindAttr(cat, k);
      if found.None? then
        SkipPriced(comb, k, cat);
        ReplaceFrom(comb, k + 1, sizes, cat)
      else
        var m := Multiplier(found.value, comb[k], |sizes|);
        ReplacePriced(comb, k, cat);
        if m.Err? then Err(m.error)
        else ReplaceFrom(comb, k + 1, ZipMul(m.value, sizes), cat)
  }

  /** One step of the loop at a catalogued attribute whose multiplier
      exists. */
  lemma ReplaceFromUnfold(comb: seq<Val>, k: nat, sizes: seq<real>, cat: Catalogue)
    requires k < |comb| && FindAttr(cat, k).Some?
    requires Multiplier(FindAttr(cat, k).value, comb[k], |sizes|).Ok?
    ensures ReplaceFrom(comb, k, sizes, cat) ==
      ReplaceFrom(comb, k + 1, ZipMul(Multiplier(FindAttr(cat, k).value, comb[k], |sizes|).value, sizes), cat)
  {
  }

  /** Relation j keeps a size exactly when every multiplier reaches it. */
  lemma {:induction false} ReplaceFromCovers(comb: seq<Val>, k: nat, sizes: seq<real>, cat: Catalogue, j: int)
    requires k <= |comb|
    requires PricedFrom(comb, k, cat)
    requires 0 <= j < |sizes|
    ensures j < |ReplaceFrom(comb, k, sizes, cat).value| <==> CoversFrom(comb, k, cat, j)
    decreases |comb| - k
  {
    if k < |comb| {
      var found := FindAttr(cat, k);
      if found.None? {
        assert ReplaceFrom(comb, k, sizes, cat) == ReplaceFrom(comb, k + 1, sizes, cat) by {
          SkipPriced(comb, k, cat);
        }
        assert CoversFrom(comb, k, cat, j) == CoversFrom(comb, k + 1, cat, j) by {
          SkipCovers(comb, k, cat, j);
        }
        assert j < |ReplaceFrom(comb, k + 1, sizes, cat).value| <==> CoversFrom(comb, k + 1, cat, j) by {
          SkipPriced(comb, k, cat);
          ReplaceFromCovers(comb, k + 1, sizes, cat, j);
        }
      } else {
        var m := Multiplier(found.value, comb[k], |sizes|);
        assert m.Ok? && PricedFrom(comb, k + 1, cat) by {
          ReplacePriced(comb, k, cat);
        }
        var s := ZipMul(m.value, sizes);
        assert ReplaceFrom(comb, k, sizes, cat) == ReplaceFrom(comb, k + 1, s, cat) by {
          ReplaceFromUnfold(comb, k, sizes, cat);
        }
        assert CoversFrom(comb, k, cat, j) <==> j < |s| && CoversFrom(comb, k + 1, cat, j) by {
          ReplaceStepCovers(comb, k, sizes, cat, m.value, j);
        }
        if j < |s| {
          assert j < |ReplaceFrom(comb, k + 1, s, cat).value| <==> CoversFrom(comb, k + 1, cat, j) by {
            ReplaceFromCovers(comb, k + 1, s, cat, j);
          }
        }
      }
    }
  }

  /** The size of relation j that comes out is its input size multiplied
      in turn by each catalogued attribute's rate for relation j. */
  lemma {:induction false} ReplaceFromValues(comb: seq<Val>, k: nat, sizes: seq<real>, cat: Catalogue, j: int)
    requires k <= |comb|
    requires PricedFrom(comb, k, cat)
    requires 0 <= j < |ReplaceFrom(comb, k, sizes, cat).value|
    ensures ReplaceFrom(comb, k, sizes, cat).value[j] == ScaleBy(sizes[j], RatesFrom(comb, k, cat, j))
    decreases |comb| - k
  {
    if k < |comb| {
      var rates := RatesFrom(comb, k, cat, j);
      var later := RatesFrom(comb, k + 1, cat, j);
      assert rates[1..] == later;
      var found := FindAttr(cat, k);
      if found.None? {
        assert ReplaceFrom(comb, k, sizes, cat) == ReplaceFrom(comb, k + 1, sizes, cat) by {
          SkipPriced(comb, k, cat);
        }
        assert ReplaceFrom(comb, k + 1, sizes, cat).value[j] == ScaleBy(sizes[j], later) by {
          SkipPriced(comb, k, cat);
          ReplaceFromValues(comb, k + 1, sizes, cat, j);
        }
        assert ScaleBy(sizes[j], rates) == ScaleBy(sizes[j], later) by {
          assert rates[0] == 1.0;
          assert ScaleBy(sizes[j], rates) == ScaleBy(1.0 * sizes[j], rates[1..]);
        }
      } else {
        ReplacePriced(comb, k, cat);
        var m := Multiplier(found.value, comb[k], |sizes|);
        var s := ZipMul(m.value, sizes);
        assert ReplaceFrom(comb, k, sizes, cat) == ReplaceFrom(comb, k + 1, s, cat) by {
          ReplaceFromUnfold(comb, k, sizes, cat);
        }
        assert ReplaceFrom(comb, k + 1, s, cat).value[j] == ScaleBy(s[j], later) by {
          ReplaceFromValues(comb, k + 1, s, cat, j);
        }
        assert ScaleBy(s[j], later) == ScaleBy(sizes[j], rates) by {
          FactorOfMultiplier(comb, cat, k, |sizes|, m.value, j);
          ScaleStep(m.value, sizes, j, rates);
        }
      }
    }
  }

  /** Hence the size that comes out is the product of the input size and
      all the rates. */
  lemma ReplaceFromProduct(comb: seq<Val>, k: nat, sizes: seq<real>, cat: Catalogue, j: int,
                           out: seq<real>)
    requires k <= |comb| && ReplaceFrom(comb, k, sizes, cat) == Ok(out)
    requires 0 <= j < |out|
    ensures j < |sizes| && out[j] == ProdReal([sizes[j]] + RatesFrom(comb, k, cat, j))
  {
    var rates := RatesFrom(comb, k, cat, j);
    ReplaceFromValues(comb, k, sizes, cat, j);
    ScaledIsProduct(out[j], sizes[j], rates);
  }

  /** `replaceSize(combination, relationSizes, hhinfo)`. */
  function ReplaceSize(comb: seq<Val>, sizes: seq<real>, cat: Catalogue): Result<seq<real>>
  {
    ReplaceFrom(comb, 0, sizes, cat)
  }

  /** When the catalogue holds none of the residual join's attributes from
      k on, the sizes come back unchanged. */
  lemma {:induction false} ReplaceSizeUntouched(comb: seq<Val>, k: nat, sizes: seq<real>, cat: Catalogue)
    requires k <= |comb|
    requires forall a :: k <= a < |comb| ==> FindAttr(cat, a).None?
    ensures ReplaceFrom(comb, k, sizes, cat) == Ok(sizes)
    decreases |comb| - k
  {
    if k < |comb| {
      ReplaceSizeUntouched(comb, k + 1, sizes, cat);
    }
  }

  /** The attributes a residual join pins: the positions holding a heavy
      value, in increasing order. */
  function Pinned(comb: seq<Val>): (r: seq<int>)
    ensures forall a :: a in r <==> 0 <= a < |comb| && comb[a].V?
    ensures forall i, j :: 0 <= i < j < |r| ==> r[i] < r[j]
  {
    if |comb| == 0 then []
    else
      var init := Pinned(comb[..|comb| - 1]);
      assert forall a :: 0 <= a < |comb| - 1 ==> comb[..|comb| - 1][a] == comb[a];
      forall i | 0 <= i < |init|
        ensures init[i] < |comb| - 1
      {
        assert init[i] in init;
      }
      init + (if comb[|comb| - 1].V? then [|comb| - 1] else [])
  }

  // ---------------------------------------------------------------------
  // refine_sizes

  /** The fractions of the ordinary values of one attribute. */
  datatype Ordinary = Ordinary(attribute: int, fractions: seq<real>)

  /** `ordinary = [x - y for x, y in zip(ordinary, fr)]` for each heavy
      value in turn. */
  function SubtractAll(acc: seq<real>, vs: seq<HeavyEntry>): (r: seq<real>)
    decreases |vs|
    ensures |r| <= |acc|
    ensures forall j :: 0 <= j < |acc| ==> (j < |r| <==> CoversColumn(vs, j))
    ensures forall j :: 0 <= j < |r| ==> r[j] == acc[j] - SumReal(Column(vs, j))
  {
    if |vs| == 0 then acc
    else
      var next := ZipSub(acc, vs[0].fractions);
      var r := SubtractAll(next, vs[1..]);
      assert forall j :: 0 <= j < |acc| ==> (CoversColumn(vs, j) <==>
        j < |vs[0].fractions| && CoversColumn(vs[1..], j));
      assert forall j :: 0 <= j < |r| ==>
        Column(vs, j) == [vs[0].fractions[j]] + Column(vs[1..], j);
      r
  }

  /** `refine_sizes`: for each catalogued attribute, the three ordinary
      fractions 1 - Σ heavy fractions. */
  function RefineSizes(cat: Catalogue): (r: seq<Ordinary>)
    ensures |r| == |cat|
    ensures forall k :: 0 <= k < |cat| ==> r[k].attribute == cat[k].attribute
  {
    seq(|cat|, k requires 0 <= k < |cat| =>
      Ordinary(cat[k].attribute, SubtractAll([1.0, 1.0, 1.0], cat[k].values)))
  }

  /** The ordinary fractions refine_sizes stores for an attribute are the
      multiplier replaceSize applies at an ordinary position for three
      relations. */
  lemma RefinedIsOrdinaryMultiplier(cat: Catalogue, k: nat)
    requires k < |cat|
    ensures Multiplier(cat[k].values, Wild, 3) == Ok(RefineSizes(cat)[k].fractions)
  {
    var vs := cat[k].values;
    var m := Multiplier(vs, Wild, 3).value;
    var o := RefineSizes(cat)[k].fractions;
    assert o == SubtractAll([1.0, 1.0, 1.0], vs);
    assert forall j :: 0 <= j < 3 ==> (j < |m| <==> RateAt(vs, Wild, j).Some?);
    assert forall j :: 0 <= j < 3 ==> (RateAt(vs, Wild, j).Some? <==> CoversColumn(vs, j));
    assert |m| < 3 ==> !CoversColumn(vs, |m|);
    assert |o| < 3 ==> !CoversColumn(vs, |o|);
    assert |m| == |o|;
    forall j | 0 <= j < |m|
      ensures m[j] == o[j]
    {
      assert m[j] == RateAt(vs, Wild, j).value;
    }
    assert m == o;
  }
}
