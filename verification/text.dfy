/** The Python string operations the modelled code relies on: `str.split`
    with a separator, `str.join`, `int()` on text, `str()` of an integer,
    whitespace stripping, `str.endswith`, `str.replace(pat, "")`,
    `str.translate(None, chars)`, and the ordering `sorted` uses on byte
    strings. */
module Text {

  import opened Base

  /** `sep.join(xs)`. */
  function Join(xs: seq<string>, sep: string): string
  {
    if |xs| == 0 then ""
    else if |xs| == 1 then xs[0]
    else xs[0] + sep + Join(xs[1..], sep)
  }

  lemma JoinConsHead(c: char, xs: seq<string>, sep: string)
    requires |xs| >= 1
    ensures Join([[c] + xs[0]] + xs[1..], sep) == [c] + Join(xs, sep)
  {
    var ys := [[c] + xs[0]] + xs[1..];
    if |xs| > 1 {
      assert ys[1..] == xs[1..];
    }
  }

  /** `s.split(sep)` for a non-empty separator: the pieces between the
      leftmost non-overlapping occurrences of `sep`. Joining the pieces again
      gives back `s`. */
  function Split(s: string, sep: string): (r: seq<string>)
    requires |sep| > 0
    ensures |r| >= 1
    ensures Join(r, sep) == s
    decreases |s|
  {
    if |s| < |sep| then [s]
    else if s[..|sep|] == sep then
      var rest := Split(s[|sep|..], sep);
      assert ([""] + rest)[1..] == rest;
      assert s == sep + s[|sep|..];
      [""] + rest
    else
      var rest := Split(s[1..], sep);
      JoinConsHead(s[0], rest, sep);
      assert s == [s[0]] + s[1..];
      [[s[0]] + rest[0]] + rest[1..]
  }

  /** Text in which the separator's first character never occurs is one
      piece. */
  lemma {:induction false} SplitNoSeparator(x: string, sep: string)
    requires |sep| > 0 && sep[0] !in x
    ensures Split(x, sep) == [x]
  {
    if |x| >= |sep| {
      assert x[..|sep|][0] == x[0] != sep[0];
      SplitNoSeparator(x[1..], sep);
      assert [x[0]] + x[1..] == x;
    }
  }

  /** A first piece free of the separator's first character is split off
      at the separator that follows it. */
  lemma {:induction false} SplitAfterPiece(x: string, sep: string, rest: string)
    requires |sep| > 0 && sep[0] !in x
    ensures Split(x + sep + rest, sep) == [x] + Split(rest, sep)
  {
    var s := x + sep + rest;
    if |x| == 0 {
      assert s[..|sep|] == sep;
      assert s[|sep|..] == rest;
    } else {
      assert s[..|sep|][0] == x[0] != sep[0];
      assert s[1..] == x[1..] + sep + rest;
      SplitAfterPiece(x[1..], sep, rest);
      assert [x[0]] + x[1..] == x;
    }
  }

  /** One character in front of a text: a separator starts a new piece,
      any other character joins the first piece. */
  lemma SplitCons(c: char, t: string, sep: string)
    requires |sep| == 1
    ensures [c] == sep ==> Split([c] + t, sep) == [""] + Split(t, sep)
    ensures [c] != sep ==>
      Split([c] + t, sep) == [[c] + Split(t, sep)[0]] + Split(t, sep)[1..]
  {
    var s := [c] + t;
    assert s[..1] == [c] && s[1..] == t && s[0] == c;
  }

  /** Splitting two texts joined by a one-character separator gives the
      pieces of the first followed by the pieces of the second. */
  lemma {:induction false} SplitConcat(u: string, sep: string, v: string)
    requires |sep| == 1
    ensures Split(u + sep + v, sep) == Split(u, sep) + Split(v, sep)
    decreases |u|
  {
    if |u| == 0 {
      SplitAfterEmpty(u, sep, v);
    } else {
      SplitConcat(u[1..], sep, v);
      SplitConcatStep(u[0], u[1..], sep, v);
      ConsRegroup(u, sep, v);
    }
  }

  /** The base case of SplitConcat: a text that starts with the separator
      has an empty first piece. */
  lemma SplitAfterEmpty(u: string, sep: string, v: string)
    requires |u| == 0 && |sep| == 1
    ensures Split(u + sep + v, sep) == Split(u, sep) + Split(v, sep)
  {
    assert u + sep + v == [sep[0]] + v;
    SplitCons(sep[0], v, sep);
  }

  lemma ConsRegroup(u: string, sep: string, v: string)
    requires |u| > 0
    ensures [u[0]] + u[1..] == u
    ensures u + sep + v == [u[0]] + (u[1..] + sep + v)
  {
  }

  /** The inductive step of SplitConcat: one more character in front. */
  lemma SplitConcatStep(c: char, w: string, sep: string, v: string)
    requires |sep| == 1
    requires Split(w + sep + v, sep) == Split(w, sep) + Split(v, sep)
    ensures Split([c] + (w + sep + v), sep) == Split([c] + w, sep) + Split(v, sep)
  {
    SplitCons(c, w + sep + v, sep);
    SplitCons(c, w, sep);
    GlueFront(c, Split(w, sep), Split(v, sep));
  }

  /** List algebra for SplitConcatStep, kept apart from Split. */
  lemma GlueFront(c: char, rs: seq<string>, vs: seq<string>)
    requires |rs| >= 1
    ensures [""] + (rs + vs) == [""] + rs + vs
    ensures [[c] + (rs + vs)[0]] + (rs + vs)[1..] == [[c] + rs[0]] + rs[1..] + vs
  {
    assert (rs + vs)[1..] == rs[1..] + vs;
  }

  /** Splitting a join on a separator whose first character no piece
      contains gives the pieces back. */
  lemma {:induction false} SplitJoin(xs: seq<string>, sep: string)
    requires |xs| >= 1 && |sep| > 0
    requires forall i :: 0 <= i < |xs| ==> sep[0] !in xs[i]
    ensures Split(Join(xs, sep), sep) == xs
  {
    if |xs| == 1 {
      SplitNoSeparator(xs[0], sep);
    } else {
      SplitJoin(xs[1..], sep);
      SplitAfterPiece(xs[0], sep, Join(xs[1..], sep));
      assert [xs[0]] + xs[1..] == xs;
    }
  }

  /** A join of at least two pieces starts with the first piece and the
      separator. */
  lemma JoinPrefix(p: string, xs: seq<string>, sep: string)
    requires |xs| >= 1
    ensures Join([p] + xs, sep) == p + sep + Join(xs, sep)
  {
    assert ([p] + xs)[1..] == xs;
  }

  /** Appending a piece appends the separator and the piece. */
  lemma {:induction false} JoinSnoc(xs: seq<string>, y: string, sep: string)
    requires |xs| >= 1
    ensures Join(xs + [y], sep) == Join(xs, sep) + sep + y
  {
    if |xs| > 1 {
      JoinSnoc(xs[1..], y, sep);
      assert (xs + [y])[1..] == xs[1..] + [y];
    } else {
      assert (xs + [y])[1..] == [y];
    }
  }

  /** What a loop appending `p + sep` for every piece p builds. */
  function Terminated(ps: seq<string>, sep: string): string
  {
    if |ps| == 0 then "" else Terminated(ps[..|ps| - 1], sep) + ps[|ps| - 1] + sep
  }

  /** Such a loop builds the join plus one trailing separator. */
  lemma {:induction false} TerminatedJoin(ps: seq<string>, sep: string)
    requires |ps| >= 1
    ensures Terminated(ps, sep) == Join(ps, sep) + sep
  {
    var n := |ps|;
    if n == 1 {
      assert ps[..0] == [];
    } else {
      TerminatedJoin(ps[..n - 1], sep);
      JoinSnoc(ps[..n - 1], ps[n - 1], sep);
      assert ps[..n - 1] + [ps[n - 1]] == ps;
    }
  }

  /** Two joins with the same number of pieces, none containing the
      one-character separator, are equal only if their pieces are. */
  lemma JoinInjective(xs: seq<string>, ys: seq<string>, c: char)
    requires |xs| == |ys| >= 1
    requires forall i :: 0 <= i < |xs| ==> c !in xs[i]
    requires forall i :: 0 <= i < |ys| ==> c !in ys[i]
    requires Join(xs, [c]) == Join(ys, [c])
    ensures xs == ys
  {
    SplitJoin(xs, [c]);
    SplitJoin(ys, [c]);
  }

  /** A character in neither the pieces nor the separator is not in their
      join. */
  lemma {:induction false} JoinAvoids(xs: seq<string>, sep: string, c: char)
    requires c !in sep
    requires forall i :: 0 <= i < |xs| ==> c !in xs[i]
    ensures c !in Join(xs, sep)
  {
    if |xs| > 1 {
      JoinAvoids(xs[1..], sep, c);
    }
  }

  /** The characters Python 2's `str.strip()` and `int()` treat as blank. */
  predicate IsSpace(c: char)
  {
    c == ' ' || c == '\t' || c == '\n' || c == '\r' || c as int == 11 || c as int == 12
  }

  predicate IsDigit(c: char)
  {
    '0' <= c <= '9'
  }

  predicate AllDigits(s: string)
  {
    forall i :: 0 <= i < |s| ==> IsDigit(s[i])
  }

  function TrimLeft(s: string): (r: string)
    ensures |r| <= |s| && r == s[|s| - |r|..]
    ensures |r| > 0 ==> !IsSpace(r[0])
  {
    if |s| > 0 && IsSpace(s[0]) then TrimLeft(s[1..]) else s
  }

  function TrimRight(s: string): (r: string)
    ensures |r| <= |s| && r == s[..|r|]
    ensures |r| > 0 ==> !IsSpace(r[|r| - 1])
  {
    if |s| > 0 && IsSpace(s[|s| - 1]) then TrimRight(s[..|s| - 1]) else s
  }

  /** `s.strip()`: leading and trailing blanks removed. */
  function Strip(s: string): string
  {
    TrimRight(TrimLeft(s))
  }

  lemma {:induction false} TrimLeftBlanks(w: string, core: string)
    requires forall i :: 0 <= i < |w| ==> IsSpace(w[i])
    requires |core| > 0 && !IsSpace(core[0])
    ensures TrimLeft(w + core) == core
  {
    if |w| > 0 {
      assert (w + core)[1..] == w[1..] + core;
      TrimLeftBlanks(w[1..], core);
    } else {
      assert w + core == core;
    }
  }

  lemma {:induction false} TrimRightBlanks(core: string, w: string)
    requires forall i :: 0 <= i < |w| ==> IsSpace(w[i])
    requires |core| > 0 && !IsSpace(core[|core| - 1])
    ensures TrimRight(core + w) == core
  {
    if |w| > 0 {
      assert (core + w)[..|core + w| - 1] == core + w[..|w| - 1];
      TrimRightBlanks(core, w[..|w| - 1]);
    } else {
      assert core + w == core;
    }
  }

  /** Blanks around a text that neither starts nor ends with a blank are
      exactly what `strip()` removes. */
  lemma StripPadded(w1: string, core: string, w2: string)
    requires forall i :: 0 <= i < |w1| ==> IsSpace(w1[i])
    requires forall i :: 0 <= i < |w2| ==> IsSpace(w2[i])
    requires |core| > 0 && !IsSpace(core[0]) && !IsSpace(core[|core| - 1])
    ensures Strip(w1 + core + w2) == core
  {
    assert w1 + core + w2 == w1 + (core + w2);
    TrimLeftBlanks(w1, core + w2);
    TrimRightBlanks(core, w2);
  }

  /** The value of a string of decimal digits. */
  function DigitsValue(ds: string): nat
    requires AllDigits(ds)
  {
    if |ds| == 0 then 0
    else DigitsValue(ds[..|ds| - 1]) * 10 + (ds[|ds| - 1] as int - '0' as int)
  }

  /** The blanks Python 2's `int()` skips after a sign, dropped. */
  function SkipBlanks(s: string): string
  {
    if |s| > 0 && IsSpace(s[0]) then SkipBlanks(s[1..]) else s
  }

  lemma {:induction false} SkipBlanksBefore(w: string, core: string)
    requires forall i :: 0 <= i < |w| ==> IsSpace(w[i])
    requires |core| > 0 && !IsSpace(core[0])
    ensures SkipBlanks(w + core) == core
  {
    if |w| > 0 {
      assert (w + core)[1..] == w[1..] + core;
      SkipBlanksBefore(w[1..], core);
    } else {
      assert w + core == core;
    }
  }

  /** The sign-and-digits shape Python 2's `int()` reads from a text
      already stripped of blanks: an optional sign, blanks the reader skips
      after the sign, then one or more decimal digits. */
  predicate NumeralShape(t: string)
  {
    (|t| > 0 && AllDigits(t)) ||
    (|t| > 0 && (t[0] == '-' || t[0] == '+') && |SkipBlanks(t[1..])| > 0 && AllDigits(SkipBlanks(t[1..])))
  }

  /** Python's `int(s)` for a byte string: blanks around, an optional sign
      that may be followed by blanks, then one or more decimal digits;
      anything else raises ValueError. */
  function ParseInt(s: string): (r: Result<int>)
    ensures r.Ok? <==> NumeralShape(Strip(s))
    ensures r.Err? ==> r.error == ValueError
  {
    ReadNumeral(Strip(s))
  }

  /** `int()` on a text already stripped of blanks. */
  function ReadNumeral(t: string): (r: Result<int>)
    ensures r.Ok? <==> NumeralShape(t)
    ensures r.Err? ==> r.error == ValueError
  {
    if |t| > 0 && (t[0] == '-' || t[0] == '+') then
      var ds := SkipBlanks(t[1..]);
      if |ds| > 0 && AllDigits(ds) then
        Ok(if t[0] == '-' then -(DigitsValue(ds) as int) else DigitsValue(ds))
      else Err(ValueError)
    else if |t| > 0 && AllDigits(t) then Ok(DigitsValue(t))
    else Err(ValueError)
  }

  function Pow10(k: nat): (r: nat)
    ensures r >= 1
  {
    if k == 0 then 1 else 10 * Pow10(k - 1)
  }

  /** An unsigned decimal numeral: digits with at most one decimal point
      and at least one digit. */
  predicate DecimalBody(u: string)
  {
    var parts := Split(u, ".");
    (|parts| == 1 && |u| > 0 && AllDigits(u)) ||
    (|parts| == 2 && AllDigits(parts[0]) && AllDigits(parts[1]) && |parts[0]| + |parts[1]| > 0)
  }

  function DecimalValue(u: string): (r: real)
    requires DecimalBody(u)
    ensures r >= 0.0
  {
    var parts := Split(u, ".");
    if |parts| == 1 then DigitsValue(u) as real
    else DigitsValue(parts[0]) as real + DigitsValue(parts[1]) as real / Pow10(|parts[1]|) as real
  }

  /** Where the exponent mark `e` or `E` of a numeral sits, or the
      numeral's length when it has none. */
  function ExponentMark(u: string): (r: nat)
    ensures r <= |u|
    ensures forall k :: 0 <= k < r ==> u[k] != 'e' && u[k] != 'E'
    ensures r < |u| ==> u[r] == 'e' || u[r] == 'E'
  {
    if |u| == 0 || u[0] == 'e' || u[0] == 'E' then 0 else 1 + ExponentMark(u[1..])
  }

  /** The text after the exponent mark: an optional sign, then one or more
      digits. */
  predicate ExponentBody(x: string)
  {
    (|x| > 0 && AllDigits(x)) || (|x| > 1 && (x[0] == '-' || x[0] == '+') && AllDigits(x[1..]))
  }

  function ExponentValue(x: string): int
    requires ExponentBody(x)
  {
    if |x| > 0 && AllDigits(x) then DigitsValue(x)
    else if x[0] == '-' then -(DigitsValue(x[1..]) as int)
    else DigitsValue(x[1..])
  }

  /** Ten to an integer power, exactly. */
  function Scale10(e: int): (r: real)
    ensures r > 0.0
  {
    if e >= 0 then Pow10(e) as real else 1.0 / Pow10(-e) as real
  }

  /** An unsigned floating-point numeral: a decimal numeral, optionally
      followed by an exponent mark and an exponent. */
  predicate FloatBody(u: string)
  {
    var m := ExponentMark(u);
    DecimalBody(u[..m]) && (m == |u| || ExponentBody(u[m + 1..]))
  }

  function FloatValue(u: string): (r: real)
    requires FloatBody(u)
    ensures r >= 0.0
  {
    var m := ExponentMark(u);
    var mantissa := DecimalValue(u[..m]);
    if m == |u| then mantissa else Scaled(mantissa, ExponentValue(u[m + 1..]))
  }

  /** A mantissa times ten to an exponent. */
  function Scaled(a: real, e: int): (r: real)
    ensures a >= 0.0 ==> r >= 0.0
  {
    a * Scale10(e)
  }

  /** Python's `float(s)` on finite numerals: blanks around, an optional
      sign, then a decimal numeral with an optional exponent; anything else
      raises ValueError. */
  function ParseDecimal(s: string): (r: Result<real>)
    ensures r.Ok? <==>
      var t := Strip(s);
      FloatBody(t) || (|t| > 1 && (t[0] == '-' || t[0] == '+') && FloatBody(t[1..]))
    ensures r.Ok? && Strip(s)[0] != '-' ==> r.value >= 0.0
    ensures r.Err? ==> r.error == ValueError
  {
    ReadFloat(Strip(s))
  }

  /** `float()` on a text already stripped of blanks. */
  function ReadFloat(t: string): (r: Result<real>)
    ensures r.Ok? <==> FloatBody(t) || (|t| > 1 && (t[0] == '-' || t[0] == '+') && FloatBody(t[1..]))
    ensures r.Ok? && t[0] != '-' ==> r.value >= 0.0
    ensures r.Err? ==> r.error == ValueError
  {
    if |t| > 1 && (t[0] == '-' || t[0] == '+') && FloatBody(t[1..]) then
      Ok(if t[0] == '-' then -FloatValue(t[1..]) else FloatValue(t[1..]))
    else if FloatBody(t) then Ok(FloatValue(t))
    else Err(ValueError)
  }

  /** A text that neither starts nor ends with a blank is read as it is. */
  lemma ParseDecimalUnpadded(t: string)
    requires |t| > 0 && !IsSpace(t[0]) && !IsSpace(t[|t| - 1])
    ensures ParseDecimal(t) == ReadFloat(t)
  {
    StripUnpadded(t);
  }

  /** A numeral with no exponent mark reads as its decimal value. */
  lemma NoExponent(u: string)
    requires 'e' !in u && 'E' !in u
    ensures ExponentMark(u) == |u|
    ensures FloatBody(u) <==> DecimalBody(u)
    ensures DecimalBody(u) ==> FloatValue(u) == DecimalValue(u)
  {
    assert u[..|u|] == u;
  }

  /** `float()` accepts every text `int()` accepts that has no blank after
      its sign, with the same value. */
  lemma ParseDecimalOfInt(s: string)
    requires ParseInt(s).Ok?
    requires forall k :: 0 <= k < |Strip(s)| ==> !IsSpace(Strip(s)[k])
    ensures ParseDecimal(s) == Ok(ParseInt(s).value as real)
  {
    var t := Strip(s);
    if |t| > 0 && (t[0] == '-' || t[0] == '+') {
      var ds := t[1..];
      assert |ds| > 0 && AllDigits(ds) by {
        if |ds| > 0 {
          assert !IsSpace(t[1]);
        }
        assert SkipBlanks(ds) == ds;
      }
      DigitsFloat(ds);
      assert !IsDigit(t[0]);
    } else {
      DigitsFloat(t);
    }
  }

  /** A string of digits is a float numeral worth the same. */
  lemma DigitsFloat(ds: string)
    requires |ds| > 0 && AllDigits(ds)
    ensures FloatBody(ds) && FloatValue(ds) == DigitsValue(ds) as real
  {
    assert '.' !in ds && 'e' !in ds && 'E' !in ds;
    SplitNoSeparator(ds, ".");
    NoExponent(ds);
  }

  /** `float()` reads a negative exponent as a division by that power of
      ten: "5e-05" is five hundred-thousandths. */
  lemma ParseNegativeExponent(ds: string, es: string)
    requires |ds| > 0 && AllDigits(ds) && |es| > 0 && AllDigits(es)
    ensures ParseDecimal(ds + "e-" + es) == Ok(DigitsValue(ds) as real / Pow10(DigitsValue(es)) as real)
  {
    var u := ds + "e-" + es;
    assert IsDigit(ds[0]) && IsDigit(es[|es| - 1]);
    assert u[0] == ds[0] && u[|u| - 1] == es[|es| - 1];
    ParseDecimalUnpadded(u);
    NegativeExponentBody(ds, es);
  }

  lemma NegativeExponentBody(ds: string, es: string)
    requires |ds| > 0 && AllDigits(ds) && |es| > 0 && AllDigits(es)
    ensures FloatBody(ds + "e-" + es)
    ensures FloatValue(ds + "e-" + es) == DigitsValue(ds) as real / Pow10(DigitsValue(es)) as real
  {
    DigitsDecimal(ds);
    NegatedExponent(es);
    FloatWithExponent(ds, "-" + es);
    MarkThenMinus(ds, es);
    ScaleDown(DigitsValue(ds) as real, DigitsValue(es));
  }

  lemma MarkThenMinus(a: string, b: string)
    ensures a + "e" + ("-" + b) == a + "e-" + b
  {
    var x := a + "e" + ("-" + b);
    var y := a + "e-" + b;
    assert |x| == |y|;
    forall k | 0 <= k < |x|
      ensures x[k] == y[k]
    {
      if k < |a| {
        assert x[k] == a[k] == y[k];
      } else if k > |a| + 1 {
        assert x[k] == b[k - |a| - 2] == y[k];
      }
    }
  }

  /** A mantissa, the mark `e` and an exponent make a numeral worth the
      mantissa scaled by that power of ten. */
  lemma FloatWithExponent(m: string, x: string)
    requires 'e' !in m && 'E' !in m && DecimalBody(m) && ExponentBody(x)
    ensures FloatBody(m + "e" + x)
    ensures FloatValue(m + "e" + x) == Scaled(DecimalValue(m), ExponentValue(x))
  {
    var u := m + "e" + x;
    assert u == m + ("e" + x);
    ExponentMarkAfter(m, "e" + x);
    var k := ExponentMark(u);
    assert k == |m| && k < |u|;
    assert u[..k] == m;
    assert u[k + 1..] == x;
    FloatOfParts(u, k);
  }

  lemma FloatOfParts(u: string, k: nat)
    requires k == ExponentMark(u) && k < |u|
    requires DecimalBody(u[..k]) && ExponentBody(u[k + 1..])
    ensures FloatBody(u)
    ensures FloatValue(u) == Scaled(DecimalValue(u[..k]), ExponentValue(u[k + 1..]))
  {
  }

  /** Digits alone are a decimal numeral worth their integer value. */
  lemma DigitsDecimal(ds: string)
    requires |ds| > 0 && AllDigits(ds)
    ensures 'e' !in ds && 'E' !in ds
    ensures DecimalBody(ds) && DecimalValue(ds) == DigitsValue(ds) as real
  {
    assert '.' !in ds;
    SplitNoSeparator(ds, ".");
  }

  lemma ScaleDown(a: real, n: nat)
    ensures Scaled(a, -(n as int)) == a / Pow10(n) as real
  {
  }

  lemma NegatedExponent(es: string)
    requires |es| > 0 && AllDigits(es)
    ensures ExponentBody("-" + es) && ExponentValue("-" + es) == -(DigitsValue(es) as int)
  {
    var x := "-" + es;
    assert x[0] == '-' && !IsDigit(x[0]);
    assert x[1..] == es;
  }

  /** The mark of a text that starts with a mark-free part comes after that
      part. */
  lemma {:induction false} ExponentMarkAfter(a: string, b: string)
    requires 'e' !in a && 'E' !in a && |b| > 0 && (b[0] == 'e' || b[0] == 'E')
    ensures ExponentMark(a + b) == |a|
  {
    if |a| > 0 {
      assert (a + b)[1..] == a[1..] + b;
      ExponentMarkAfter(a[1..], b);
    } else {
      assert a + b == b;
    }
  }

  function DigitChar(d: nat): (c: char)
    requires d < 10
    ensures IsDigit(c) && c as int - '0' as int == d
  {
    ('0' as int + d) as char
  }

  /** `str(n)` for a natural number: its decimal digits, without leading
      zeros. */
  function NatToString(n: nat): (r: string)
    ensures |r| > 0 && AllDigits(r)
    ensures |r| > 1 ==> r[0] != '0'
  {
    if n < 10 then [DigitChar(n)]
    else NatToString(n / 10) + [DigitChar(n % 10)]
  }

  /** `str(i)` for an integer. */
  function IntToString(i: int): (r: string)
    ensures |r| > 0 && !IsSpace(r[0]) && !IsSpace(r[|r| - 1])
    ensures forall k :: 0 <= k < |r| ==> IsDigit(r[k]) || (k == 0 && r[k] == '-')
  {
    if i < 0 then "-" + NatToString(-i) else NatToString(i)
  }

  /** Only digits and a leading minus occur in `str(i)`. */
  lemma IntToStringAvoids(i: int, c: char)
    requires c != '-' && !IsDigit(c)
    ensures c !in IntToString(i)
  {
    var s := IntToString(i);
    assert forall k :: 0 <= k < |s| ==> s[k] != c;
  }

  lemma {:induction false} DigitsOfNat(n: nat)
    ensures DigitsValue(NatToString(n)) == n
  {
    var s := NatToString(n);
    if n >= 10 {
      DigitsOfNat(n / 10);
      assert s[..|s| - 1] == NatToString(n / 10);
    }
  }

  /** A text that neither starts nor ends with a blank is its own strip. */
  lemma StripUnpadded(core: string)
    requires |core| > 0 && !IsSpace(core[0]) && !IsSpace(core[|core| - 1])
    ensures Strip(core) == core
  {
    assert TrimLeft(core) == core;
  }

  lemma ParseDigits(ds: string)
    requires |ds| > 0 && AllDigits(ds)
    ensures ParseInt(ds) == Ok(DigitsValue(ds))
  {
    StripUnpadded(ds);
    assert IsDigit(ds[0]);
  }

  lemma ReadNegative(t: string, ds: string)
    requires |t| > 1 && t[0] == '-' && t[1..] == ds && AllDigits(ds)
    ensures ReadNumeral(t) == Ok(-(DigitsValue(ds) as int))
  {
    assert IsDigit(ds[0]);
    assert SkipBlanks(ds) == ds;
  }

  /** Python 2's `int()` skips blanks between the sign and the digits:
      `int("- 5") == -5`. */
  lemma ParseSignThenBlanks(c: char, w: string, ds: string)
    requires c == '-' || c == '+'
    requires forall k :: 0 <= k < |w| ==> IsSpace(w[k])
    requires |ds| > 0 && AllDigits(ds)
    ensures ParseInt([c] + w + ds) == Ok(if c == '-' then -(DigitsValue(ds) as int) else DigitsValue(ds))
  {
    SignedNumeralText(c, w, ds);
    ParseSigned([c] + w + ds, ds);
  }

  lemma ParseSigned(t: string, ds: string)
    requires |t| > 0 && (t[0] == '-' || t[0] == '+') && !IsSpace(t[|t| - 1])
    requires SkipBlanks(t[1..]) == ds && |ds| > 0 && AllDigits(ds)
    ensures ParseInt(t) == Ok(if t[0] == '-' then -(DigitsValue(ds) as int) else DigitsValue(ds))
  {
    ReadSigned(t, ds);
    ParseUnpadded(t);
  }

  /** A text that neither starts nor ends with a blank is read as it is. */
  lemma ParseUnpadded(t: string)
    requires |t| > 0 && !IsSpace(t[0]) && !IsSpace(t[|t| - 1])
    ensures ParseInt(t) == ReadNumeral(t)
  {
    StripUnpadded(t);
  }

  lemma SignedNumeralText(c: char, w: string, ds: string)
    requires c == '-' || c == '+'
    requires forall k :: 0 <= k < |w| ==> IsSpace(w[k])
    requires |ds| > 0 && AllDigits(ds)
    ensures |[c] + w + ds| > 0 && ([c] + w + ds)[0] == c
    ensures SkipBlanks(([c] + w + ds)[1..]) == ds
    ensures !IsSpace(([c] + w + ds)[|[c] + w + ds| - 1])
  {
    assert IsDigit(ds[0]) && IsDigit(ds[|ds| - 1]);
    var u := w + ds;
    SkipBlanksBefore(w, ds);
    var t := [c] + u;
    assert t == [c] + w + ds;
    assert t[0] == c && t[1..] == u;
    assert t[|t| - 1] == ds[|ds| - 1];
  }

  lemma ReadSigned(t: string, ds: string)
    requires |t| > 0 && (t[0] == '-' || t[0] == '+')
    requires SkipBlanks(t[1..]) == ds && |ds| > 0 && AllDigits(ds)
    ensures ReadNumeral(t) == Ok(if t[0] == '-' then -(DigitsValue(ds) as int) else DigitsValue(ds))
  {
  }

  lemma ParseNegatedDigits(ds: string)
    requires |ds| > 0 && AllDigits(ds)
    ensures ParseInt("-" + ds) == Ok(-(DigitsValue(ds) as int))
  {
    var t := "-" + ds;
    assert t[0] == '-' && t[1..] == ds && t[|t| - 1] == ds[|ds| - 1];
    assert Strip(t) == t by {
      StripUnpadded(t);
    }
    ReadNegative(t, ds);
  }

  /** `int(str(i)) == i`. */
  lemma ParseIntToString(i: int)
    ensures ParseInt(IntToString(i)) == Ok(i)
  {
    if i < 0 {
      DigitsOfNat(-i);
      ParseNegatedDigits(NatToString(-i));
    } else {
      DigitsOfNat(i);
      ParseDigits(NatToString(i));
    }
  }

  /** Blanks around the rendering of an integer do not change what `int()`
      reads. */
  lemma ParseIntPadded(w1: string, i: int, w2: string)
    requires forall k :: 0 <= k < |w1| ==> IsSpace(w1[k])
    requires forall k :: 0 <= k < |w2| ==> IsSpace(w2[k])
    ensures ParseInt(w1 + IntToString(i) + w2) == Ok(i)
  {
    var s := IntToString(i);
    assert Strip(w1 + s + w2) == s by {
      StripPadded(w1, s, w2);
    }
    assert Strip(s) == s by {
      StripUnpadded(s);
    }
    assert ParseInt(s) == Ok(i) by {
      ParseIntToString(i);
    }
  }

  lemma IntToStringInjective(a: int, b: int)
    requires IntToString(a) == IntToString(b)
    ensures a == b
  {
    ParseIntToString(a);
    ParseIntToString(b);
  }

  /** `s.endswith(suffix)`. */
  predicate EndsWith(s: string, suffix: string)
  {
    |suffix| <= |s| && s[|s| - |suffix|..] == suffix
  }

  /** `s.replace(pat, "")`: every leftmost non-overlapping occurrence of
      `pat` deleted. */
  function RemoveAll(s: string, pat: string): (r: string)
    requires |pat| > 0
    ensures |r| <= |s|
    decreases |s|
  {
    if |s| < |pat| then s
    else if s[..|pat|] == pat then RemoveAll(s[|pat|..], pat)
    else [s[0]] + RemoveAll(s[1..], pat)
  }

  /** Text that does not contain the first character of the pattern is
      left alone, and deleting it before a trailing pattern occurrence
      leaves that text. */
  lemma {:induction false} RemoveAllBeforeSuffix(x: string, pat: string)
    requires |pat| > 0 && pat[0] !in x
    ensures RemoveAll(x + pat, pat) == x
  {
    var s := x + pat;
    if |x| == 0 {
      assert s[..|pat|] == pat;
      assert s[|pat|..] == "";
    } else {
      assert s[..|pat|] != pat by {
        assert s[..|pat|][0] == x[0] != pat[0];
      }
      assert s[1..] == x[1..] + pat;
      RemoveAllBeforeSuffix(x[1..], pat);
      assert [x[0]] + x[1..] == x;
    }
  }

  /** `s.translate(None, chars)`: every character in `chars` deleted. */
  function DeleteChars(s: string, chars: set<char>): (r: string)
    ensures forall i :: 0 <= i < |r| ==> r[i] !in chars
    ensures |r| <= |s|
  {
    if |s| == 0 then ""
    else if s[0] in chars then DeleteChars(s[1..], chars)
    else [s[0]] + DeleteChars(s[1..], chars)
  }

  /** Deleting characters works piecewise on a concatenation. */
  lemma {:induction false} DeleteCharsConcat(a: string, b: string, chars: set<char>)
    ensures DeleteChars(a + b, chars) == DeleteChars(a, chars) + DeleteChars(b, chars)
  {
    if |a| > 0 {
      assert (a + b)[1..] == a[1..] + b;
      DeleteCharsConcat(a[1..], b, chars);
    } else {
      assert a + b == b;
    }
  }

  /** Text holding none of the characters is left unchanged. */
  lemma {:induction false} DeleteCharsNone(s: string, chars: set<char>)
    requires forall i :: 0 <= i < |s| ==> s[i] !in chars
    ensures DeleteChars(s, chars) == s
  {
    if |s| > 0 {
      DeleteCharsNone(s[1..], chars);
    }
  }

  /** The order Python 2 uses on byte strings: character by character, a
      proper prefix first. */
  predicate LexLe(a: string, b: string)
  {
    |a| == 0 || (|b| > 0 && (a[0] < b[0] || (a[0] == b[0] && LexLe(a[1..], b[1..]))))
  }

  predicate LexLt(a: string, b: string)
  {
    LexLe(a, b) && a != b
  }

  lemma {:induction false} LexTotal(a: string, b: string)
    ensures LexLe(a, b) || LexLe(b, a)
  {
    if |a| > 0 && |b| > 0 && a[0] == b[0] {
      LexTotal(a[1..], b[1..]);
    }
  }

  lemma {:induction false} LexAntisymmetric(a: string, b: string)
    requires LexLe(a, b) && LexLe(b, a)
    ensures a == b
  {
    if |a| > 0 && |b| > 0 {
      LexAntisymmetric(a[1..], b[1..]);
      assert a == [a[0]] + a[1..] && b == [b[0]] + b[1..];
    }
  }

  lemma {:induction false} LexTransitive(a: string, b: string, c: string)
    requires LexLe(a, b) && LexLe(b, c)
    ensures LexLe(a, c)
  {
    if |a| > 0 && |b| > 0 && |c| > 0 && a[0] == b[0] == c[0] {
      LexTransitive(a[1..], b[1..], c[1..]);
    }
  }

  /** Strictly increasing in the byte-string order. */
  predicate StrictlySorted(xs: seq<string>)
  {
    forall i, j :: 0 <= i < j < |xs| ==> LexLt(xs[i], xs[j])
  }

  lemma {:induction false} MinimumExists(s: set<string>)
    requires s != {}
    ensures exists m :: m in s && forall x :: x in s ==> LexLe(m, x)
  {
    var y :| y in s;
    if s == {y} {
      LexTotal(y, y);
      assert forall x :: x in s ==> LexLe(y, x);
    } else {
      MinimumExists(s - {y});
      var m :| m in s - {y} && forall x :: x in s - {y} ==> LexLe(m, x);
      MinimumOfOneMore(s, y, m);
      if LexLe(m, y) {
        assert m in s;
      } else {
        assert y in s;
      }
    }
  }

  /** The least of `s` is the least of `s - {y}` or `y` itself. */
  lemma MinimumOfOneMore(s: set<string>, y: string, m: string)
    requires y in s && m in s - {y}
    requires forall x :: x in s - {y} ==> LexLe(m, x)
    ensures LexLe(m, y) ==> forall x :: x in s ==> LexLe(m, x)
    ensures !LexLe(m, y) ==> forall x :: x in s ==> LexLe(y, x)
  {
    LexTotal(m, y);
    LexTotal(y, y);
    if !LexLe(m, y) {
      forall x | x in s && x != y
        ensures LexLe(y, x)
      {
        LexTransitive(y, m, x);
      }
    }
  }

  /** `sorted(keys)` for a set of byte strings: every key once, in
      increasing order. */
  ghost function SortedKeys(keys: set<string>): (r: seq<string>)
    ensures |r| == |keys|
    ensures forall k :: k in keys <==> k in r
    ensures StrictlySorted(r)
    decreases |keys|
  {
    if keys == {} then []
    else
      MinimumExists(keys);
      var m :| m in keys && forall x :: x in keys ==> LexLe(m, x);
      var rest := SortedKeys(keys - {m});
      PrependMinimum(keys, m, rest);
      [m] + rest
  }

  /** The step of SortedKeys: the least key in front of the sorted others
      is the sorted whole. */
  lemma PrependMinimum(keys: set<string>, m: string, rest: seq<string>)
    requires m in keys && forall x :: x in keys ==> LexLe(m, x)
    requires |rest| == |keys - {m}| && StrictlySorted(rest)
    requires forall k :: k in keys - {m} <==> k in rest
    ensures |[m] + rest| == |keys|
    ensures forall k :: k in keys <==> k in [m] + rest
    ensures StrictlySorted([m] + rest)
  {
    assert |keys - {m}| == |keys| - 1;
    PrependMembers(keys, m, rest);
    PrependSorted(keys, m, rest);
  }

  lemma PrependMembers(keys: set<string>, m: string, rest: seq<string>)
    requires m in keys
    requires forall k :: k in keys - {m} <==> k in rest
    ensures forall k :: k in keys <==> k in [m] + rest
  {
    forall k
      ensures k in keys <==> k in [m] + rest
    {
      assert k in [m] + rest <==> k == m || k in rest;
    }
  }

  lemma PrependSorted(keys: set<string>, m: string, rest: seq<string>)
    requires forall x :: x in keys ==> LexLe(m, x)
    requires StrictlySorted(rest)
    requires forall k :: k in rest ==> k in keys && k != m
    ensures StrictlySorted([m] + rest)
  {
    var r := [m] + rest;
    forall i, j | 0 <= i < j < |r|
      ensures LexLt(r[i], r[j])
    {
      var y := rest[j - 1];
      assert r[j] == y && y in rest;
      if i == 0 {
        assert LexLe(m, y) && m != y;
      } else {
        assert r[i] == rest[i - 1];
        assert LexLt(rest[i - 1], rest[j - 1]);
      }
    }
  }

  lemma SameElementsEmpty<T>(xs: seq<T>, ys: seq<T>)
    requires forall k :: k in xs <==> k in ys
    ensures |xs| == 0 <==> |ys| == 0
  {
    if |xs| > 0 {
      assert xs[0] in ys;
    }
    if |ys| > 0 {
      assert ys[0] in xs;
    }
  }

  /** A set of strings has only one strictly increasing enumeration. */
  lemma {:induction false} SortedUnique(xs: seq<string>, ys: seq<string>)
    requires StrictlySorted(xs) && StrictlySorted(ys)
    requires forall k :: k in xs <==> k in ys
    ensures xs == ys
    decreases |xs|
  {
    SameElementsEmpty(xs, ys);
    if |xs| > 0 {
      assert xs[0] == ys[0] by {
        assert xs[0] in ys;
        assert ys[0] in xs;
        var i :| 0 <= i < |ys| && ys[i] == xs[0];
        var j :| 0 <= j < |xs| && xs[j] == ys[0];
        if i > 0 && j > 0 {
          assert LexLt(xs[0], xs[j]) && LexLt(ys[0], ys[i]);
          LexAntisymmetric(xs[0], ys[0]);
          assert false;
        }
      }
      forall k
        ensures k in xs[1..] <==> k in ys[1..]
      {
        if k in xs[1..] {
          var i :| 1 <= i < |xs| && xs[i] == k;
          assert LexLt(xs[0], k);
          assert k in ys;
        }
        if k in ys[1..] {
          var i :| 1 <= i < |ys| && ys[i] == k;
          assert LexLt(ys[0], k);
          assert k in xs;
        }
      }
      SortedUnique(xs[1..], ys[1..]);
      assert xs == [xs[0]] + xs[1..] && ys == [ys[0]] + ys[1..];
    }
  }
}
