/** The duration parser of the job report: a text such as "50mins,20sec"
    is split at commas, and every piece that the regular expression
    `.*mins$` matches adds sixty times its number, every piece that
    `.*sec$` matches adds its number. */
module JoinJob {

  import opened Base
  import opened Text

  /** The regular expression `.*<suffix>$`, matched from the start of `t`,
      can end its match at `p`: `.` never crosses a newline, and `$` holds at
      the end of the text or just before a newline that ends it. */
  predicate MatchEndsAt(t: string, suffix: string, p: int)
  {
    0 <= p <= |t| && '\n' !in t[..p] && EndsWith(t[..p], suffix) &&
    (p == |t| || (p == |t| - 1 && t[p] == '\n'))
  }

  /** The text a successful `re.match(".*<suffix>$", t)` reports as
      `group(0)`, or None when the expression does not match. */
  function MatchSuffix(t: string, suffix: string): (r: Option<string>)
    ensures r.Some? ==> EndsWith(r.value, suffix) && '\n' !in r.value
    ensures r.Some? ==> t == r.value || t == r.value + "\n"
  {
    var body := if |t| > 0 && t[|t| - 1] == '\n' then t[..|t| - 1] else t;
    if '\n' !in body && EndsWith(body, suffix) then Some(body) else None
  }

  /** The match succeeds exactly when the expression can end somewhere, the
      reported group is the text up to that end, and there is only one such
      end. */
  lemma MatchSuffixSpec(t: string, suffix: string)
    ensures MatchSuffix(t, suffix).Some? <==> exists p :: MatchEndsAt(t, suffix, p)
    ensures MatchSuffix(t, suffix).Some? ==>
      var g := MatchSuffix(t, suffix).value;
      MatchEndsAt(t, suffix, |g|) && g == t[..|g|]
    ensures forall p, q :: MatchEndsAt(t, suffix, p) && MatchEndsAt(t, suffix, q) ==> p == q
  {
    var m := MatchSuffix(t, suffix);
    if m.Some? {
      assert m.value == t[..|m.value|];
      assert MatchEndsAt(t, suffix, |m.value|);
    }
    forall p | MatchEndsAt(t, suffix, p)
      ensures m.Some? && p == |m.value|
    {
      if p == |t| && |t| > 0 {
        assert t[|t| - 1] in t[..p];
      }
    }
  }

  /** A newline that ends the piece does not change what is matched. */
  lemma MatchBeforeNewline(t: string, suffix: string)
    requires |t| == 0 || t[|t| - 1] != '\n'
    ensures MatchSuffix(t + "\n", suffix) == MatchSuffix(t, suffix)
  {
    assert (t + "\n")[..|t|] == t;
  }

  /** A piece whose last character is neither a newline nor the suffix's
      last character is not matched. */
  lemma LastCharMismatch(t: string, suffix: string)
    requires |t| > 0 && |suffix| > 0
    requires t[|t| - 1] != '\n' && t[|t| - 1] != suffix[|suffix| - 1]
    ensures MatchSuffix(t, suffix) == None
  {
    EndsWithAt(t, suffix, |suffix| - 1);
  }

  /** A text ending with a suffix agrees with it on the suffix's
      positions. */
  lemma EndsWithAt(s: string, suffix: string, k: int)
    requires 0 <= k < |suffix|
    ensures EndsWith(s, suffix) ==> s[|s| - |suffix| + k] == suffix[k]
  {
    if EndsWith(s, suffix) {
      assert s[|s| - |suffix|..][k] == s[|s| - |suffix| + k];
    }
  }

  /** What one `if m:` block adds: `scale * int(group.replace(suffix, ""))`
      when the piece matches, nothing when it does not, and ValueError when
      the remaining text is not an integer. */
  function Contribution(t: string, suffix: string, scale: int): (r: Result<int>)
    requires |suffix| > 0
    ensures MatchSuffix(t, suffix).None? ==> r == Ok(0)
    ensures r.Err? ==> r.error == ValueError
  {
    match MatchSuffix(t, suffix)
    case None => Ok(0)
    case Some(g) =>
      match ParseInt(RemoveAll(g, suffix))
      case Err(e) => Err(e)
      case Ok(n) => Ok(scale * n)
  }

  /** A matched piece fails exactly when the text left after deleting the
      suffix is not an integer, and otherwise adds `scale` times it. */
  lemma ContributionOfMatch(t: string, suffix: string, scale: int)
    requires |suffix| > 0 && MatchSuffix(t, suffix).Some?
    ensures var read := ParseInt(RemoveAll(MatchSuffix(t, suffix).value, suffix));
      Contribution(t, suffix, scale) == (if read.Ok? then Ok(scale * read.value) else Err(ValueError))
  {
  }

  /** Blanks other than a newline, which the pieces may carry around their
      number. */
  predicate Blanks(w: string)
  {
    forall k :: 0 <= k < |w| ==> IsSpace(w[k]) && w[k] != '\n'
  }

  /** A number padded with blanks and followed by the suffix contributes
      `scale` times that number. */
  lemma ContributionOf(w1: string, n: int, w2: string, suffix: string, scale: int)
    requires Blanks(w1) && Blanks(w2)
    requires |suffix| > 0 && '\n' !in suffix
    requires suffix[0] != '-' && !IsDigit(suffix[0]) && !IsSpace(suffix[0])
    ensures MatchSuffix(w1 + IntToString(n) + w2 + suffix, suffix).Some?
    ensures Contribution(w1 + IntToString(n) + w2 + suffix, suffix, scale) == Ok(scale * n)
  {
    var x := w1 + IntToString(n) + w2;
    var t := x + suffix;
    assert t[|t| - 1] == suffix[|suffix| - 1];
    assert '\n' !in x by {
      IntToStringAvoids(n, '\n');
    }
    assert t[|t| - |suffix|..] == suffix;
    assert MatchSuffix(t, suffix) == Some(t);
    assert suffix[0] !in x by {
      IntToStringAvoids(n, suffix[0]);
    }
    RemoveAllBeforeSuffix(x, suffix);
    ParseIntPadded(w1, n, w2);
  }

  /** Two contributions in the order the loop body adds them: the first
      error raised, or their sum. */
  function Combine(first: Result<int>, second: Result<int>): (r: Result<int>)
    ensures r.Ok? <==> first.Ok? && second.Ok?
    ensures r.Ok? ==> r.value == first.value + second.value
    ensures r.Err? ==> r.error == (if first.Err? then first.error else second.error)
  {
    match first
    case Err(e) => Err(e)
    case Ok(a) =>
      match second
      case Err(e) => Err(e)
      case Ok(b) => Ok(a + b)
  }

  /** `.*mins$` then `.*sec$` on one piece; a ValueError of the first match
      is raised before the second is tried. */
  function PieceSeconds(t: string): (r: Result<int>)
    ensures r.Err? ==> r.error == ValueError
  {
    Combine(Contribution(t, "mins", 60), Contribution(t, "sec", 1))
  }

  /** No piece is matched by both expressions: a matched group ends in 's'
      for one and in 'c' for the other. */
  lemma NoPieceMatchesBoth(t: string)
    ensures !(MatchSuffix(t, "mins").Some? && MatchSuffix(t, "sec").Some?)
  {
    var m := MatchSuffix(t, "mins");
    if m.Some? {
      EndsWithAt(m.value, "mins", 3);
      EndsWithAt(m.value, "sec", 2);
    }
  }

  /** A piece matched by neither expression contributes nothing. */
  lemma UnmatchedPiece(t: string)
    requires MatchSuffix(t, "mins").None? && MatchSuffix(t, "sec").None?
    ensures PieceSeconds(t) == Ok(0)
  {
  }

  /** "<n>mins", with blanks around the number, is sixty times n seconds. */
  lemma MinutesPiece(w1: string, n: int, w2: string)
    requires Blanks(w1) && Blanks(w2)
    ensures PieceSeconds(w1 + IntToString(n) + w2 + "mins") == Ok(60 * n)
  {
    var t := w1 + IntToString(n) + w2 + "mins";
    assert Contribution(t, "mins", 60) == Ok(60 * n) by {
      ContributionOf(w1, n, w2, "mins", 60);
    }
    assert Contribution(t, "sec", 1) == Ok(0) by {
      LastCharMismatch(t, "sec");
    }
  }

  /** "<n>sec", with blanks around the number, is n seconds. */
  lemma SecondsPiece(w1: string, n: int, w2: string)
    requires Blanks(w1) && Blanks(w2)
    ensures PieceSeconds(w1 + IntToString(n) + w2 + "sec") == Ok(n)
  {
    var t := w1 + IntToString(n) + w2 + "sec";
    assert Contribution(t, "sec", 1) == Ok(n) by {
      ContributionOf(w1, n, w2, "sec", 1);
    }
    assert Contribution(t, "mins", 60) == Ok(0) by {
      LastCharMismatch(t, "mins");
    }
  }

  /** Any piece ending in "secs" contributes nothing: neither expression
      matches it. */
  lemma SecsPieceIgnored(x: string)
    ensures PieceSeconds(x + "secs") == Ok(0)
  {
    var t := x + "secs";
    assert Contribution(t, "mins", 60) == Ok(0) by {
      SecsNotMinutes(x);
    }
    assert Contribution(t, "sec", 1) == Ok(0) by {
      assert t[|t| - 1] == 's';
      LastCharMismatch(t, "sec");
    }
  }

  /** A word where the number should be raises ValueError: a text that
      starts with something other than a blank, a sign or a digit. */
  lemma WordBeforeMinutes(x: string)
    requires |x| > 0 && 'm' !in x && '\n' !in x
    requires !IsSpace(x[0]) && !IsSpace(x[|x| - 1])
    requires !IsDigit(x[0]) && x[0] != '-' && x[0] != '+'
    ensures PieceSeconds(x + "mins") == Err(ValueError)
  {
    var t := x + "mins";
    assert t[|t| - 4..] == "mins";
    assert MatchSuffix(t, "mins") == Some(t);
    RemoveAllBeforeSuffix(x, "mins");
    StripUnpadded(x);
  }

  /** The loop over the pieces: the sum of their contributions, or the
      first error raised. */
  function SumPieces(ps: seq<string>, piece: string -> Result<int>): (r: Result<int>)
    ensures r.Ok? <==> forall k :: 0 <= k < |ps| ==> piece(ps[k]).Ok?
    ensures r.Err? ==> exists k :: 0 <= k < |ps| && piece(ps[k]) == Err(r.error)
  {
    if |ps| == 0 then Ok(0)
    else
      match piece(ps[0])
      case Err(e) => Err(e)
      case Ok(a) =>
        var rest := SumPieces(ps[1..], piece);
        if rest.Err? then
          var k :| 0 <= k < |ps[1..]| && piece(ps[1..][k]) == Err(rest.error);
          assert piece(ps[k + 1]) == Err(rest.error);
          Err(rest.error)
        else Ok(a + rest.value)
  }

  /** Summing the pieces of two lists one after the other adds the two
      sums, and fails exactly when one of them does. */
  lemma {:induction false} SumPiecesConcat(xs: seq<string>, ys: seq<string>, piece: string -> Result<int>)
    ensures SumPieces(xs + ys, piece).Ok? <==> SumPieces(xs, piece).Ok? && SumPieces(ys, piece).Ok?
    ensures SumPieces(xs + ys, piece).Ok? ==>
      SumPieces(xs + ys, piece).value == SumPieces(xs, piece).value + SumPieces(ys, piece).value
  {
    if |xs| > 0 {
      assert (xs + ys)[0] == xs[0];
      assert (xs + ys)[1..] == xs[1..] + ys;
      SumPiecesConcat(xs[1..], ys, piece);
    } else {
      assert xs + ys == ys;
    }
  }

  /** Two lists of pieces worth x and y are worth x + y together. */
  lemma SumPiecesJoined(xs: seq<string>, ys: seq<string>, piece: string -> Result<int>, x: int, y: int)
    requires SumPieces(xs, piece) == Ok(x) && SumPieces(ys, piece) == Ok(y)
    ensures SumPieces(xs + ys, piece) == Ok(x + y)
  {
    SumPiecesConcat(xs, ys, piece);
  }

  /** `sumtime(value)`: the seconds of all comma-separated pieces. */
  function SumTime(value: string): (r: Result<int>)
    ensures r.Err? ==> r.error == ValueError
  {
    SumPieces(Split(value, ","), PieceSeconds)
  }

  /** A list of one piece sums to that piece's contribution. */
  lemma SumPiecesSingle(p: string, piece: string -> Result<int>)
    ensures SumPieces([p], piece) == Combine(piece(p), Ok(0))
  {
    assert [p][1..] == [];
  }

  lemma CombineZero(x: Result<int>)
    ensures Combine(x, Ok(0)) == x
  {
  }

  /** A text without a comma is one piece. */
  lemma SumTimeSingle(p: string)
    requires ',' !in p
    ensures SumTime(p) == PieceSeconds(p)
  {
    SplitNoSeparator(p, ",");
    SumPiecesSingle(p, PieceSeconds);
    CombineZero(PieceSeconds(p));
  }

  /** Joining two durations with a comma adds their totals, and the
      joined text parses exactly when both parts do. */
  lemma SumTimeConcat(u: string, v: string)
    ensures SumTime(u + "," + v).Ok? <==> SumTime(u).Ok? && SumTime(v).Ok?
    ensures SumTime(u + "," + v).Ok? ==>
      SumTime(u + "," + v).value == SumTime(u).value + SumTime(v).value
  {
    SplitConcat(u, ",", v);
    SumPiecesConcat(Split(u, ","), Split(v, ","), PieceSeconds);
  }

  /** "<n>mins" alone. */
  lemma MinutesPieceBare(n: int)
    ensures PieceSeconds(IntToString(n) + "mins") == Ok(60 * n)
  {
    MinutesPiece("", n, "");
    Unpadded(IntToString(n), "mins");
  }

  lemma Unpadded(x: string, suffix: string)
    ensures "" + x + "" + suffix == x + suffix
  {
  }

  /** "<n>mins" alone is sixty times n seconds. */
  lemma SumTimeMinutes(n: int)
    ensures SumTime(IntToString(n) + "mins") == Ok(60 * n)
  {
    var p := IntToString(n) + "mins";
    NoComma(n, "mins");
    MinutesPieceBare(n);
    SumTimeOf(p, Ok(60 * n));
  }

  /** The rendering of an integer followed by a comma-free suffix holds no
      comma. */
  lemma NoComma(n: int, suffix: string)
    requires ',' !in suffix
    ensures ',' !in IntToString(n) + suffix
  {
    IntToStringAvoids(n, ',');
  }

  lemma SumTimeOf(p: string, v: Result<int>)
    requires ',' !in p && PieceSeconds(p) == v
    ensures SumTime(p) == v
  {
    SumTimeSingle(p);
  }

  /** A comma-free text ending in "secs" alone is no seconds at all. */
  lemma SumTimeSecs(x: string)
    requires ',' !in x
    ensures SumTime(x + "secs") == Ok(0)
  {
    SecsPieceIgnored(x);
    SumTimeOf(x + "secs", Ok(0));
  }

  /** The shape of the documented example: minutes, a comma, then a
      piece ending in "secs". */
  lemma MinutesThenSecs(n: int, x: string)
    requires ',' !in x
    ensures SumTime(IntToString(n) + "mins" + "," + x + "secs") == Ok(60 * n)
  {
    var p := IntToString(n) + "mins";
    SumTimeMinutes(n);
    SumTimeSecs(x);
    SumTimeConcat(p, x + "secs");
    Regroup(p, x, "secs");
  }

  lemma Regroup(p: string, x: string, y: string)
    ensures p + "," + (x + y) == p + "," + x + y
  {
  }

  lemma FiftyText()
    ensures IntToString(50) == "50"
  {
    assert NatToString(5) == "5";
    assert NatToString(50) == NatToString(5) + "0";
  }

  lemma TwentyText()
    ensures IntToString(20) == "20"
  {
    assert NatToString(2) == "2";
    assert NatToString(20) == NatToString(2) + "0";
  }

  /** The documented example, spelled out. */
  lemma DocExampleText()
    ensures IntToString(50) + "mins" + "," + " 20 " + "secs" == "50mins, 20 secs"
    ensures IntToString(50) + "mins" + "," + " " + IntToString(20) + " " + "secs" == "50mins, 20 secs"
  {
    FiftyText();
    TwentyText();
  }

  /** The documented example "50mins, 20 secs" comes to 3000 seconds, not
      3020: the seconds piece ends in "secs", which `.*sec$` does not
      match. */
  lemma DocExampleAsWritten()
    ensures SumTime("50mins, 20 secs") == Ok(3000)
  {
    MinutesThenSecs(50, " 20 ");
    DocExampleText();
  }

  /** The seconds of a piece as the documentation describes them: a number
      followed by "sec" or "secs". */
  function SecondsIntended(t: string): (r: Result<int>)
    ensures r.Err? ==> r.error == ValueError
  {
    if MatchSuffix(t, "secs").Some? then Contribution(t, "secs", 1)
    else Contribution(t, "sec", 1)
  }

  /** One piece with both spellings of seconds accepted. */
  function PieceSecondsIntended(t: string): (r: Result<int>)
    ensures r.Err? ==> r.error == ValueError
  {
    Combine(Contribution(t, "mins", 60), SecondsIntended(t))
  }

  /** The duration parser with both spellings of seconds accepted. */
  function SumTimeIntended(value: string): (r: Result<int>)
    ensures r.Err? ==> r.error == ValueError
  {
    SumPieces(Split(value, ","), PieceSecondsIntended)
  }

  /** The corrected parser agrees with the written one on every piece that
      does not end in "secs". */
  lemma IntendedAgrees(t: string)
    requires MatchSuffix(t, "secs").None?
    ensures PieceSecondsIntended(t) == PieceSeconds(t)
  {
    assert SecondsIntended(t) == Contribution(t, "sec", 1);
    assert PieceSecondsIntended(t) == Combine(Contribution(t, "mins", 60), Contribution(t, "sec", 1));
  }

  lemma SumTimeIntendedSingle(p: string)
    requires ',' !in p
    ensures SumTimeIntended(p) == PieceSecondsIntended(p)
  {
    SplitNoSeparator(p, ",");
    SumPiecesSingle(p, PieceSecondsIntended);
    CombineZero(PieceSecondsIntended(p));
  }

  lemma NoCommaPadded(m: int)
    ensures ',' !in " " + IntToString(m) + " " + "secs"
  {
    IntToStringAvoids(m, ',');
  }

  lemma SumTimeIntendedOf(p: string, v: Result<int>)
    requires ',' !in p && PieceSecondsIntended(p) == v
    ensures SumTimeIntended(p) == v
  {
    SumTimeIntendedSingle(p);
  }

  lemma SumTimeIntendedConcat(u: string, v: string)
    ensures SumTimeIntended(u + "," + v).Ok? <==> SumTimeIntended(u).Ok? && SumTimeIntended(v).Ok?
    ensures SumTimeIntended(u + "," + v).Ok? ==>
      SumTimeIntended(u + "," + v).value == SumTimeIntended(u).value + SumTimeIntended(v).value
  {
    SplitConcat(u, ",", v);
    SumPiecesConcat(Split(u, ","), Split(v, ","), PieceSecondsIntended);
  }

  /** A piece matched by `.*secs$` is matched by `.*mins$` nowhere. */
  lemma SecsNotMinutes(x: string)
    ensures MatchSuffix(x + "secs", "mins").None?
  {
    var t := x + "secs";
    assert t[|t| - 3] == 'e';
    EndsWithAt(t, "mins", 1);
  }

  /** A piece ending in "mins" is matched by `.*secs$` nowhere. */
  lemma MinsNotSecs(x: string)
    ensures MatchSuffix(x + "mins", "secs").None?
  {
    var t := x + "mins";
    assert t[|t| - 3] == 'i';
    EndsWithAt(t, "secs", 1);
  }

  /** "<n>secs", with blanks around the number, is n seconds under the
      corrected parser. */
  lemma SecsPieceIntended(w1: string, n: int, w2: string)
    requires Blanks(w1) && Blanks(w2)
    ensures PieceSecondsIntended(w1 + IntToString(n) + w2 + "secs") == Ok(n)
  {
    var t := w1 + IntToString(n) + w2 + "secs";
    assert MatchSuffix(t, "secs").Some? && Contribution(t, "secs", 1) == Ok(n) by {
      ContributionOf(w1, n, w2, "secs", 1);
    }
    assert MatchSuffix(t, "mins").None? by {
      SecsNotMinutes(w1 + IntToString(n) + w2);
    }
    SecondsOfSecs(t, n);
  }

  lemma SecondsOfSecs(t: string, n: int)
    requires MatchSuffix(t, "secs").Some? && Contribution(t, "secs", 1) == Ok(n)
    requires MatchSuffix(t, "mins").None?
    ensures PieceSecondsIntended(t) == Ok(n)
  {
    assert SecondsIntended(t) == Ok(n);
  }

  /** "<n>mins" alone, under the corrected parser. */
  lemma MinutesIntendedBare(n: int)
    ensures PieceSecondsIntended(IntToString(n) + "mins") == Ok(60 * n)
  {
    MinutesPieceBare(n);
    MinsNotSecs(IntToString(n));
    IntendedAgrees(IntToString(n) + "mins");
  }

  lemma SumTimeIntendedMinutes(n: int)
    ensures SumTimeIntended(IntToString(n) + "mins") == Ok(60 * n)
  {
    var p := IntToString(n) + "mins";
    assert ',' !in p by {
      NoComma(n, "mins");
    }
    assert PieceSecondsIntended(p) == Ok(60 * n) by {
      MinutesIntendedBare(n);
    }
    SumTimeIntendedOf(p, Ok(60 * n));
  }

  lemma SumTimeIntendedSecs(m: int)
    ensures SumTimeIntended(" " + IntToString(m) + " " + "secs") == Ok(m)
  {
    var q := " " + IntToString(m) + " " + "secs";
    NoCommaPadded(m);
    SecsPieceIntended(" ", m, " ");
    SumTimeIntendedOf(q, Ok(m));
  }

  /** Minutes, a comma, then "<m> secs": both parts count under the
      corrected parser. */
  lemma MinutesThenSecsIntended(n: int, m: int)
    ensures SumTimeIntended(IntToString(n) + "mins" + "," + " " + IntToString(m) + " " + "secs") ==
            Ok(60 * n + m)
  {
    var p := IntToString(n) + "mins";
    var q := " " + IntToString(m) + " " + "secs";
    SumTimeIntendedMinutes(n);
    SumTimeIntendedSecs(m);
    SumTimeIntendedJoined(p, q, 60 * n, m);
    RegroupSecs(p, IntToString(m));
  }

  /** Two durations worth x and y, joined by a comma, are worth x + y. */
  lemma SumTimeIntendedJoined(p: string, q: string, x: int, y: int)
    requires SumTimeIntended(p) == Ok(x) && SumTimeIntended(q) == Ok(y)
    ensures SumTimeIntended(p + "," + q) == Ok(x + y)
  {
    SplitConcat(p, ",", q);
    SumPiecesJoined(Split(p, ","), Split(q, ","), PieceSecondsIntended, x, y);
  }

  lemma RegroupSecs(p: string, d: string)
    ensures p + "," + (" " + d + " " + "secs") == p + "," + " " + d + " " + "secs"
  {
  }

  /** The documented example comes to 3020 seconds under the corrected
      parser. */
  lemma DocExampleIntended()
    ensures SumTimeIntended("50mins, 20 secs") == Ok(3020)
  {
    MinutesThenSecsIntended(50, 20);
    DocExampleText();
  }
}
