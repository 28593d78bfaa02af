/** The map side of the skew-aware join (justshares.py): widening an input
    tuple to the full attribute width, deciding whether a tuple belongs to a
    residual join, completing a residual join's share map, expanding a tuple
    into the reducer keys it is sent to, and the text encoding of what the
    mapper emits.

    Tuple values are the text tokens of the input line; `'_'` marks an
    attribute the relation does not carry. The heavy hitters of a residual
    join map attribute positions to their heavy value. */
module Routing {

  import opened Base
  import opened Text

  /** The marker of an attribute a tuple does not carry. */
  const Wildcard: string := "_"

  /** The heavy hitters pinned by one residual join: attribute position to
      heavy value. */
  type Pins = map<int, string>

  /** The share of each attribute, keyed by the attribute's decimal text. */
  type ShareMap = map<string, int>

  // ---------------------------------------------------------------------
  // Heavy-hitter lookups

  /** `hasHH(attr, hhs)`: some residual join pins the attribute. */
  function HasHh(attr: int, hhs: seq<Pins>): (r: bool)
    ensures r <==> exists k :: 0 <= k < |hhs| && attr in hhs[k]
  {
    if |hhs| == 0 then false
    else if attr in hhs[0] then true
    else
      assert forall k :: 1 <= k < |hhs| ==> hhs[k] == hhs[1..][k - 1];
      HasHh(attr, hhs[1..])
  }

  /** `allvaluesofHH(hhid, hhs)`: the distinct values the residual joins pin
      the attribute to; a residual join that does not pin it is skipped. */
  function AllValuesOfHh(id: int, hhs: seq<Pins>): (r: set<string>)
    ensures forall v :: v in r <==> exists k :: 0 <= k < |hhs| && id in hhs[k] && hhs[k][id] == v
  {
    if |hhs| == 0 then {}
    else
      var rest := AllValuesOfHh(id, hhs[1..]);
      assert forall k :: 1 <= k < |hhs| ==> hhs[k] == hhs[1..][k - 1];
      (if id in hhs[0] then {hhs[0][id]} else {}) + rest
  }

  /** The keys of the inverted heavy-hitter index the mapper builds: every
      (attribute, heavy value) pair some residual join pins. */
  function Inverted(hhs: seq<Pins>): (r: set<(int, string)>)
    ensures forall a, v :: (a, v) in r <==> exists k :: 0 <= k < |hhs| && a in hhs[k] && hhs[k][a] == v
  {
    if |hhs| == 0 then {}
    else
      var rest := Inverted(hhs[1..]);
      assert forall k :: 1 <= k < |hhs| ==> hhs[k] == hhs[1..][k - 1];
      (set a | a in hhs[0] :: (a, hhs[0][a])) + rest
  }

  // ---------------------------------------------------------------------
  // Residual membership

  /** Position i of a tuple is compatible with the residual join: where the
      residual join is ordinary the value must not be a heavy hitter of that
      attribute; where it pins a heavy value the tuple must hold that value
      or not carry the attribute. */
  predicate PositionAdmits(v: string, pin: string, i: int, inverted: set<(int, string)>)
  {
    if pin == Wildcard then (i, v) !in inverted else v == pin || v == Wildcard
  }

  /** The tuple belongs to the residual join: every position the two share
      (zip stops at the shorter) is compatible. */
  predicate Admits(input: seq<string>, residual: seq<string>, inverted: set<(int, string)>)
  {
    forall i :: 0 <= i < |input| && i < |residual| ==>
      PositionAdmits(input[i], residual[i], i, inverted)
  }

  /** `decideSingleResidual`: the scan stops at the first incompatible
      position; the result is true exactly when the tuple belongs to the
      residual join. */
  method DecideSingleResidual(input: seq<string>, residual: seq<string>, inverted: set<(int, string)>)
    returns (flag: bool)
    ensures flag <==> Admits(input, residual, inverted)
  {
    flag := true;
    var n := Min(|input|, |residual|);
    var idx := 0;
    while idx < n
      invariant 0 <= idx <= n
      invariant forall i :: 0 <= i < idx ==> PositionAdmits(input[i], residual[i], i, inverted)
    {
      if residual[idx] == Wildcard {
        if (idx, input[idx]) in inverted {
          flag := false;
          return;
        }
      } else if input[idx] == residual[idx] {
      } else if input[idx] == Wildcard {
      } else {
        flag := false;
        return;
      }
      idx := idx + 1;
    }
  }

  /** A tuple that does not carry a pinned attribute still belongs to the
      residual join: blanking a pinned position keeps the tuple admitted. */
  lemma WildcardMatchesPin(input: seq<string>, residual: seq<string>, inverted: set<(int, string)>, p: int)
    requires Admits(input, residual, inverted)
    requires 0 <= p < |input| && p < |residual| && residual[p] != Wildcard
    ensures Admits(input[p := Wildcard], residual, inverted)
  {
    var blank := input[p := Wildcard];
    forall i | 0 <= i < |blank| && i < |residual|
      ensures PositionAdmits(blank[i], residual[i], i, inverted)
    {
      if i != p {
        assert blank[i] == input[i];
      }
    }
  }

  // ---------------------------------------------------------------------
  // Widening a tuple to the full attribute width

  /** The number of attributes a schema row carries. */
  function Ones(row: seq<int>): (r: nat)
    ensures r <= |row|
  {
    if |row| == 0 then 0
    else Ones(row[..|row| - 1]) + (if row[|row| - 1] == 1 then 1 else 0)
  }

  /** The values at the carried positions, in order. */
  function Project(t: seq<string>, row: seq<int>): (r: seq<string>)
    requires |t| == |row|
    ensures |r| == Ones(row)
  {
    if |row| == 0 then []
    else
      Project(t[..|t| - 1], row[..|row| - 1]) +
      (if row[|row| - 1] == 1 then [t[|t| - 1]] else [])
  }

  /** `extendTupleValue(values, row)`: `'_'` at every position the row does
      not carry, and the carried positions filled with the values in order,
      IndexError
      when the values run out; surplus values are ignored. */
  function ExtendTuple(values: seq<string>, row: seq<int>): (r: Result<seq<string>>)
    ensures r.Ok? <==> Ones(row) <= |values|
    ensures r.Err? ==> r.error == IndexError
    ensures r.Ok? ==> |r.value| == |row|
    ensures r.Ok? ==> forall i :: 0 <= i < |row| && row[i] != 1 ==> r.value[i] == Wildcard
  {
    if |row| == 0 then Ok([])
    else
      var init := row[..|row| - 1];
      var last := |row| - 1;
      var head := ExtendTuple(values, init);
      var k := Ones(init);
      assert row[..last] == init;
      if head.Err? then
        head
      else if row[last] == 1 then
        if k < |values| then
          Ok(head.value + [values[k]])
        else Err(IndexError)
      else
        Ok(head.value + [Wildcard])
  }

  /** Widening a row is widening the row without its last attribute and
      then appending the last attribute's entry. */
  lemma ExtendStep(values: seq<string>, row: seq<int>)
    requires |row| > 0 && ExtendTuple(values, row).Ok?
    ensures ExtendTuple(values, row[..|row| - 1]).Ok?
    ensures ExtendTuple(values, row).value[..|row| - 1] == ExtendTuple(values, row[..|row| - 1]).value
    ensures row[|row| - 1] == 1 ==>
      (Ones(row[..|row| - 1]) < |values| &&
       ExtendTuple(values, row).value[|row| - 1] == values[Ones(row[..|row| - 1])])
  {
  }

  /** The k-th carried position holds the k-th value. */
  lemma {:induction false} ExtendTupleAt(values: seq<string>, row: seq<int>, i: int)
    requires ExtendTuple(values, row).Ok?
    requires 0 <= i < |row| && row[i] == 1
    ensures Ones(row[..i]) < |values|
    ensures ExtendTuple(values, row).value[i] == values[Ones(row[..i])]
    decreases |row|
  {
    var last := |row| - 1;
    var init := row[..last];
    var t := ExtendTuple(values, row).value;
    ExtendStep(values, row);
    if i == last {
      assert row[..i] == init;
    } else {
      var u := ExtendTuple(values, init).value;
      ExtendTupleAt(values, init, i);
      assert row[..i] == init[..i];
      assert t[i] == t[..last][i] == u[i];
    }
  }


  /** Projecting a widened tuple back to the carried positions gives the
      values used, in order. */
  lemma {:induction false} ProjectWidened(values: seq<string>, row: seq<int>)
    requires ExtendTuple(values, row).Ok?
    ensures Project(ExtendTuple(values, row).value, row) == values[..Ones(row)]
    decreases |row|
  {
    if |row| > 0 {
      var last := |row| - 1;
      var init := row[..last];
      var k := Ones(init);
      var t := ExtendTuple(values, row).value;
      ExtendStep(values, row);
      ProjectWidened(values, init);
      assert Project(t, row) == Project(t[..last], init) + (if row[last] == 1 then [t[last]] else []);
      if row[last] == 1 {
        assert values[..k + 1] == values[..k] + [values[k]];
      }
    }
  }

  /** Projecting a widened tuple back to the carried positions gives the
      values it was widened from. */
  lemma ProjectExtend(values: seq<string>, row: seq<int>)
    requires Ones(row) == |values|
    ensures ExtendTuple(values, row).Ok?
    ensures Project(ExtendTuple(values, row).value, row) == values
  {
    ProjectWidened(values, row);
    assert values[..Ones(row)] == values;
  }


  // ---------------------------------------------------------------------
  // Completing a residual join's share map

  /** The share keys of the attributes a residual join pins. */
  function PinnedKeys(pinned: set<int>): set<string>
  {
    set a | a in pinned :: IntToString(a)
  }

  /** The keys `str(1)` to `str(4)`, whose share defaults to 1 when the
      solver left them out. */
  const DefaultKeys: set<string> := {"1", "2", "3", "4"}

  /** `shares.update({k: 1 for k in ones})`, then share 1 for each of
      `defaults` still missing. */
  function FillShares(shares: ShareMap, ones: set<string>, defaults: set<string>): (r: ShareMap)
    ensures r.Keys == shares.Keys + ones + defaults
    ensures forall k :: k in ones ==> r[k] == 1
    ensures forall k :: k in defaults && k !in shares ==> r[k] == 1
    ensures forall k :: k in shares && k !in ones ==> r[k] == shares[k]
  {
    var withOnes := shares + map k | k in ones :: 1;
    withOnes + map k | k in defaults && k !in withOnes :: 1
  }

  /** The mapper's completion of a residual join's shares: every pinned
      attribute gets share 1 (overriding the solver's share), each of the
      default keys still missing gets share 1, and every other share is
      kept. */
  function CompleteShares(shares: ShareMap, pinned: set<int>): (r: ShareMap)
    ensures r.Keys == shares.Keys + PinnedKeys(pinned) + DefaultKeys
    ensures forall k :: k in PinnedKeys(pinned) ==> r[k] == 1
    ensures forall k :: k in DefaultKeys && k !in shares ==> r[k] == 1
    ensures forall k :: k in shares && k !in PinnedKeys(pinned) ==> r[k] == shares[k]
  {
    FillShares(shares, PinnedKeys(pinned), DefaultKeys)
  }

  /** Completing twice is completing once: the in-place update the mapper
      repeats on every input line leaves the shares as the first line
      left them. */
  lemma CompleteSharesIdempotent(shares: ShareMap, pinned: set<int>)
    ensures CompleteShares(CompleteShares(shares, pinned), pinned) == CompleteShares(shares, pinned)
  {
    var once := CompleteShares(shares, pinned);
    var twice := CompleteShares(once, pinned);
    forall k | k in twice
      ensures k in once && twice[k] == once[k]
    {
      if k in PinnedKeys(pinned) {
        assert twice[k] == 1 == once[k];
      }
    }
  }

  /** Completion keeps every share positive. */
  lemma CompleteSharesPositive(shares: ShareMap, pinned: set<int>)
    requires forall k :: k in shares ==> shares[k] >= 1
    ensures var r := CompleteShares(shares, pinned); forall k :: k in r ==> r[k] >= 1
  {
  }

  // ---------------------------------------------------------------------
  // Key expansion

  /** `range(n)`. */
  function Range(n: nat): (r: seq<int>)
    ensures |r| == n
    ensures forall i :: 0 <= i < n ==> r[i] == i
  {
    seq(n, i => i)
  }

  /** The shares in the order of their keys. */
  function SharesInOrder(sh: ShareMap, order: seq<string>): (r: seq<int>)
    requires forall k :: k in order ==> k in sh
    ensures |r| == |order|
    ensures forall i :: 0 <= i < |order| ==> r[i] == sh[order[i]]
  {
    seq(|order|, i requires 0 <= i < |order| => sh[order[i]])
  }

  /** The candidate coordinates on each key dimension: the one coordinate
      `value mod share` where the relation carries the attribute, every
      coordinate below the share where it does not. The dimension count is
      the shortest of the three lists (`zip`). */
  function Axes(flags: seq<int>, shares: seq<int>, vals: seq<int>): (r: seq<seq<int>>)
    requires forall i :: 0 <= i < |shares| ==> shares[i] >= 1
    ensures |r| == Min(|flags|, Min(|shares|, |vals|))
    ensures forall i :: 0 <= i < |r| && flags[i] == 1 ==> r[i] == [vals[i] % shares[i]]
    ensures forall i :: 0 <= i < |r| && flags[i] != 1 ==> r[i] == Range(shares[i])
  {
    var n := Min(|flags|, Min(|shares|, |vals|));
    seq(n, i requires 0 <= i < n =>
      if flags[i] == 1 then [vals[i] % shares[i]] else Range(shares[i]))
  }

  /** The coordinates a tuple is sent to under one residual join. */
  function Keys(flags: seq<int>, shares: seq<int>, vals: seq<int>): (r: seq<seq<int>>)
    requires forall i :: 0 <= i < |shares| ==> shares[i] >= 1
  {
    Cartesian(Axes(flags, shares, vals))
  }

  /** A key fixes `value mod share` on every carried dimension and lies
      below the share on every other. */
  lemma KeyCoordinates(flags: seq<int>, shares: seq<int>, vals: seq<int>, key: seq<int>)
    requires forall i :: 0 <= i < |shares| ==> shares[i] >= 1
    requires key in Keys(flags, shares, vals)
    ensures |key| == Min(|flags|, Min(|shares|, |vals|))
    ensures forall i :: 0 <= i < |key| ==> 0 <= key[i] < shares[i]
    ensures forall i :: 0 <= i < |key| && flags[i] == 1 ==> key[i] == vals[i] % shares[i]
  {
    var axes := Axes(flags, shares, vals);
    forall i | 0 <= i < |key|
      ensures 0 <= key[i] < shares[i]
      ensures flags[i] == 1 ==> key[i] == vals[i] % shares[i]
    {
      assert key[i] in axes[i];
    }
  }

  /** The share of a dimension the relation does not carry; 1 for one it
      carries. */
  function Spread(flags: seq<int>, shares: seq<int>, vals: seq<int>): (r: seq<int>)
    requires forall i :: 0 <= i < |shares| ==> shares[i] >= 1
    ensures |r| == Min(|flags|, Min(|shares|, |vals|))
  {
    var n := Min(|flags|, Min(|shares|, |vals|));
    seq(n, i requires 0 <= i < n => if flags[i] == 1 then 1 else shares[i])
  }

  /** A tuple goes to as many keys as the product of the shares of the
      dimensions its relation does not carry, and to no key twice. */
  lemma KeysCount(flags: seq<int>, shares: seq<int>, vals: seq<int>)
    requires forall i :: 0 <= i < |shares| ==> shares[i] >= 1
    ensures |Keys(flags, shares, vals)| == Prod(Spread(flags, shares, vals))
    ensures Distinct(Keys(flags, shares, vals))
  {
    var axes := Axes(flags, shares, vals);
    assert Lengths(axes) == Spread(flags, shares, vals);
    forall i | 0 <= i < |axes|
      ensures Distinct(axes[i])
    {
    }
    CartesianDistinct(axes);
  }

  /** Conversely, every coordinate list of the right dimension that fixes
      the residue on each carried dimension and stays below the share on
      the others is one of the keys. */
  lemma KeysComplete(flags: seq<int>, shares: seq<int>, vals: seq<int>, key: seq<int>)
    requires forall i :: 0 <= i < |shares| ==> shares[i] >= 1
    requires |key| == Min(|flags|, Min(|shares|, |vals|))
    requires forall i :: 0 <= i < |key| ==> 0 <= key[i] < shares[i]
    requires forall i :: 0 <= i < |key| && flags[i] == 1 ==> key[i] == vals[i] % shares[i]
    ensures key in Keys(flags, shares, vals)
  {
    var axes := Axes(flags, shares, vals);
    forall i | 0 <= i < |axes|
      ensures key[i] in axes[i]
    {
      if flags[i] != 1 {
        assert axes[i][key[i]] == key[i];
      }
    }
    CartesianComplete(axes, key);
  }

  /** The key a pair of tuples meets at: the carried residue of either
      tuple, or 0 where neither carries the dimension. */
  function MeetingKey(flags1: seq<int>, vals1: seq<int>, flags2: seq<int>, vals2: seq<int>, shares: seq<int>): (r: seq<int>)
    requires forall i :: 0 <= i < |shares| ==> shares[i] >= 1
    requires |flags1| == |flags2| && |vals1| == |vals2|
    ensures |r| == Min(|flags1|, Min(|shares|, |vals1|))
    ensures forall i :: 0 <= i < |r| ==> 0 <= r[i] < shares[i]
    ensures forall i :: 0 <= i < |r| && flags1[i] == 1 ==> r[i] == vals1[i] % shares[i]
    ensures forall i :: 0 <= i < |r| && flags1[i] != 1 && flags2[i] == 1 ==> r[i] == vals2[i] % shares[i]
  {
    var n := Min(|flags1|, Min(|shares|, |vals1|));
    seq(n, i requires 0 <= i < n =>
      if flags1[i] == 1 then vals1[i] % shares[i]
      else if flags2[i] == 1 then vals2[i] % shares[i]
      else 0)
  }

  /** Two tuples that agree on every dimension both carry meet at some
      reducer: under the same shares their key lists share a key. */
  lemma KeysMeet(flags1: seq<int>, vals1: seq<int>, flags2: seq<int>, vals2: seq<int>, shares: seq<int>)
    requires forall i :: 0 <= i < |shares| ==> shares[i] >= 1
    requires |flags1| == |flags2| && |vals1| == |vals2|
    requires forall i :: 0 <= i < |vals1| && i < |flags1| && flags1[i] == 1 && flags2[i] == 1 ==> vals1[i] == vals2[i]
    ensures exists key :: key in Keys(flags1, shares, vals1) && key in Keys(flags2, shares, vals2)
  {
    var key := MeetingKey(flags1, vals1, flags2, vals2, shares);
    KeysComplete(flags1, shares, vals1, key);
    KeysComplete(flags2, shares, vals2, key);
  }

  // ---------------------------------------------------------------------
  // What the mapper emits

  /** `'.'.join(str(x) for x in key)` for the key `('-'.join(residual),) +
      coordinates`. */
  function KeyText(residual: seq<string>, key: seq<int>): string
  {
    Join([Join(residual, "-")] + IntTexts(key), ".")
  }

  /** The decimal texts of a list of integers. */
  function IntTexts(xs: seq<int>): (r: seq<string>)
    ensures |r| == |xs|
    ensures forall i :: 0 <= i < |xs| ==> r[i] == IntToString(xs[i])
  {
    seq(|xs|, i requires 0 <= i < |xs| => IntToString(xs[i]))
  }

  /** Distinct coordinate lists of one dimension under the same residual
      join have distinct key texts. */
  lemma KeyTextInjective(residual: seq<string>, k1: seq<int>, k2: seq<int>)
    requires |k1| == |k2|
    requires KeyText(residual, k1) == KeyText(residual, k2)
    ensures k1 == k2
  {
    if |k1| > 0 {
      var p := Join(residual, "-");
      var xs := IntTexts(k1);
      var ys := IntTexts(k2);
      JoinPrefix(p, xs, ".");
      JoinPrefix(p, ys, ".");
      var n := |p + "."|;
      assert Join(xs, ".") == KeyText(residual, k1)[n..];
      assert Join(ys, ".") == KeyText(residual, k2)[n..];
      forall i | 0 <= i < |xs|
        ensures '.' !in xs[i] && '.' !in ys[i]
      {
        IntToStringAvoids(k1[i], '.');
        IntToStringAvoids(k2[i], '.');
      }
      JoinInjective(xs, ys, '.');
      forall i | 0 <= i < |k1|
        ensures k1[i] == k2[i]
      {
        assert xs[i] == ys[i];
        IntToStringInjective(k1[i], k2[i]);
      }
    }
  }

  /** `str(relation) + ":" + "+".join(tuple)`. */
  function ValueText(relation: int, tuple: seq<string>): string
  {
    IntToString(relation) + ":" + Join(tuple, "+")
  }

  /** One (key text, value text) pair per key, in key order. */
  function Emit(residual: seq<string>, keys: seq<seq<int>>, value: string): (r: seq<(string, string)>)
    ensures |r| == |keys|
    ensures forall i :: 0 <= i < |keys| ==> r[i].1 == value
  {
    seq(|keys|, i requires 0 <= i < |keys| => (KeyText(residual, keys[i]), value))
  }

  /** Distinct keys of one dimension give distinct key texts, so collecting
      the emitted keys into a set loses none of them. */
  lemma EmitDistinct(residual: seq<string>, keys: seq<seq<int>>, value: string)
    requires Distinct(keys)
    requires forall k1, k2 :: k1 in keys && k2 in keys ==> |k1| == |k2|
    ensures forall i, j :: 0 <= i < j < |keys| ==> Emit(residual, keys, value)[i].0 != Emit(residual, keys, value)[j].0
  {
    var r := Emit(residual, keys, value);
    forall i, j | 0 <= i < j < |keys|
      ensures r[i].0 != r[j].0
    {
      if r[i].0 == r[j].0 {
        KeyTextInjective(residual, keys[i], keys[j]);
      }
    }
  }

  /** The emitted key texts are exactly the texts of the keys. */
  lemma EmitCovers(residual: seq<string>, keys: seq<seq<int>>, value: string)
    ensures (set p | p in Emit(residual, keys, value) :: p.0) == (set key | key in keys :: KeyText(residual, key))
  {
    var out := Emit(residual, keys, value);
    forall key | key in keys
      ensures KeyText(residual, key) in (set p | p in out :: p.0)
    {
      var i :| 0 <= i < |keys| && keys[i] == key;
      assert out[i] in out;
    }
    forall p | p in out
      ensures p.0 in (set key | key in keys :: KeyText(residual, key))
    {
      var i :| 0 <= i < |out| && out[i] == p;
      assert keys[i] in keys;
    }
  }

  // ---------------------------------------------------------------------
  // Reading an input line

  /** `0 if v == '_' else int(v)`. */
  function ShortValue(v: string): Result<int>
  {
    if v == Wildcard then Ok(0) else ParseInt(v)
  }

  /** Python's `s[1:]`: everything after the first element. */
  function Tail<T>(s: seq<T>): (r: seq<T>)
    ensures |r| == Max0(|s| - 1)
    ensures forall i :: 1 <= i < |s| ==> r[i - 1] == s[i]
  {
    if |s| == 0 then [] else s[1..]
  }

  /** The values as integers, an attribute not carried reading as 0;
      ValueError at the first value that is neither. */
  function Shorten(vs: seq<string>): (r: Result<seq<int>>)
    ensures r.Ok? <==> forall i :: 0 <= i < |vs| ==> ShortValue(vs[i]).Ok?
    ensures r.Err? ==> r.error == ValueError
    ensures r.Ok? ==> |r.value| == |vs|
    ensures r.Ok? ==> forall i :: 0 <= i < |vs| ==> ShortValue(vs[i]) == Ok(r.value[i])
  {
    MapResult(vs, ShortValue)
  }

  /** A line of input read against the schema: the relation number, the
      relation's schema row, the widened tuple and its integer values. */
  datatype Reading = Reading(relation: int, row: seq<int>, tuple: seq<string>, vals: seq<int>)

  /** The relation number's text: the first space-separated token without
      its leading letter. */
  function RelationText(tokens: seq<string>): string
    requires |tokens| > 0
  {
    if |tokens[0]| == 0 then "" else tokens[0][1..]
  }

  /** Widening the values of a line to the row and reading them as
      integers: IndexError when the values run short, ValueError when a
      carried value is not an integer. */
  function Widen(values: seq<string>, row: seq<int>): (r: Result<(seq<string>, seq<int>)>)
    ensures r.Ok? ==> ExtendTuple(values, row) == Ok(r.value.0) && Shorten(Tail(r.value.0)) == Ok(r.value.1)
    ensures Ones(row) > |values| ==> r == Err(IndexError)
  {
    var ext := ExtendTuple(values, row);
    if ext.Err? then Err(ext.error)
    else
      var vals := Shorten(Tail(ext.value));
      if vals.Err? then Err(vals.error) else Ok((ext.value, vals.value))
  }

  /** Looking the relation up in the schema and widening its values:
      IndexError for a relation number outside the schema (relations count
      from 1; Python's negative indices wrap). */
  function ReadFields(rel: Result<int>, values: seq<string>, schema: seq<seq<int>>): (r: Result<Reading>)
    ensures rel.Err? ==> r == Err(rel.error)
    ensures rel.Ok? && PyIndex(rel.value - 1, |schema|).None? ==> r == Err(IndexError)
    ensures rel.Ok? && PyIndex(rel.value - 1, |schema|).Some? ==>
      var row := schema[PyIndex(rel.value - 1, |schema|).value];
      (r.Ok? <==> Widen(values, row).Ok?) && (r.Ok? ==> r.value.row == row)
    ensures r.Ok? ==> rel == Ok(r.value.relation) && r.value.row in schema
    ensures r.Ok? ==> |r.value.tuple| == |r.value.row| && |r.value.vals| == Max0(|r.value.row| - 1)
    ensures r.Ok? ==> Widen(values, r.value.row) == Ok((r.value.tuple, r.value.vals))
  {
    if rel.Err? then Err(rel.error)
    else
      match PyIndex(rel.value - 1, |schema|)
      case None => Err(IndexError)
      case Some(p) =>
        var w := Widen(values, schema[p]);
        if w.Err? then Err(w.error)
        else Ok(Reading(rel.value, schema[p], w.value.0, w.value.1))
  }

  /** The reading part of `identityMapper`: ValueError for a relation
      number or value that is not an integer, IndexError for a relation
      number outside the schema or a line with too few values. */
  function ReadTuple(line: string, schema: seq<seq<int>>): (r: Result<Reading>)
    ensures r.Ok? ==> r.value.row in schema && |r.value.tuple| == |r.value.row|
    ensures r.Ok? ==> |r.value.vals| == Max0(|r.value.row| - 1)
    ensures r.Ok? ==> ParseInt(RelationText(Split(line, " "))) == Ok(r.value.relation)
    ensures r.Ok? ==> Widen(Split(line, " ")[1..], r.value.row) == Ok((r.value.tuple, r.value.vals))
    ensures ParseInt(RelationText(Split(line, " "))).Err? ==> r == Err(ValueError)
  {
    var tokens := Split(line, " ");
    ReadFields(ParseInt(RelationText(tokens)), tokens[1..], schema)
  }

  /** A widened tuple holds the values on the carried positions, in
      order. */
  lemma WidenProjects(values: seq<string>, row: seq<int>)
    requires Widen(values, row).Ok?
    ensures Ones(row) <= |values|
    ensures Project(Widen(values, row).value.0, row) == values[..Ones(row)]
  {
    ProjectWidened(values, row);
  }


  /** The input line of a tuple of relation `rel`: `R<rel>` and the values,
      separated by single spaces. */
  function RenderLine(rel: int, values: seq<string>): string
  {
    Join(["R" + IntToString(rel)] + values, " ")
  }

  /** Splitting a line at a separator no piece contains gives back the
      pieces. */
  lemma SplitLine(head: string, values: seq<string>, sep: string)
    requires |sep| == 1 && sep[0] !in head
    requires forall i :: 0 <= i < |values| ==> sep[0] !in values[i]
    ensures Split(Join([head] + values, sep), sep) == [head] + values
  {
    var pieces := [head] + values;
    forall i | 0 <= i < |pieces|
      ensures sep[0] !in pieces[i]
    {
      if i > 0 {
        assert pieces[i] == values[i - 1];
      }
    }
    SplitJoin(pieces, sep);
  }

  /** The relation token's text after its leading letter. */
  lemma RelationTextOf(c: char, rel: int, values: seq<string>)
    ensures RelationText([[c] + IntToString(rel)] + values) == IntToString(rel)
  {
    assert ([c] + IntToString(rel))[1..] == IntToString(rel);
  }

  /** A position of a widened tuple reads as an integer when every value
      does. */
  lemma WidenedReadable(values: seq<string>, row: seq<int>, i: int)
    requires ExtendTuple(values, row).Ok?
    requires forall j :: 0 <= j < |values| ==> ShortValue(values[j]).Ok?
    requires 0 <= i < |row|
    ensures ShortValue(ExtendTuple(values, row).value[i]).Ok?
  {
    if row[i] == 1 {
      ExtendTupleAt(values, row, i);
      var j := Ones(row[..i]);
      assert ShortValue(values[j]).Ok?;
    }
  }

  /** Widening values that are each `'_'` or an integer to a row carrying
      no more attributes than there are values succeeds. */
  lemma WidenReadable(values: seq<string>, row: seq<int>)
    requires Ones(row) <= |values|
    requires forall i :: 0 <= i < |values| ==> ShortValue(values[i]).Ok?
    ensures Widen(values, row).Ok?
  {
    var t := ExtendTuple(values, row).value;
    var tail := Tail(t);
    forall i | 0 <= i < |tail|
      ensures ShortValue(tail[i]).Ok?
    {
      WidenedReadable(values, row, i + 1);
      assert tail[i] == t[i + 1];
    }
  }


  /** Reading a rendered line recovers the relation and widens exactly the
      rendered values, when no value holds a space, the relation is in the
      schema, the row carries as many attributes as there are values and
      each value is `'_'` or an integer. */
  lemma ReadRenderedLine(rel: int, values: seq<string>, schema: seq<seq<int>>)
    requires forall i :: 0 <= i < |values| ==> ' ' !in values[i]
    requires 1 <= rel <= |schema|
    requires Ones(schema[rel - 1]) == |values|
    requires forall i :: 0 <= i < |values| ==> ShortValue(values[i]).Ok?
    ensures ReadTuple(RenderLine(rel, values), schema).Ok?
    ensures ReadTuple(RenderLine(rel, values), schema).value.relation == rel
    ensures ReadTuple(RenderLine(rel, values), schema).value.tuple == ExtendTuple(values, schema[rel - 1]).value
  {
    RenderedTokens(rel, values);
    WidenReadable(values, schema[rel - 1]);
    assert PyIndex(rel - 1, |schema|) == Some(rel - 1);
  }

  /** The tokens of a rendered line are its relation token and values, and
      the relation token reads as the relation. */
  lemma RenderedTokens(rel: int, values: seq<string>)
    requires forall i :: 0 <= i < |values| ==> ' ' !in values[i]
    ensures Split(RenderLine(rel, values), " ")[1..] == values
    ensures ParseInt(RelationText(Split(RenderLine(rel, values), " "))) == Ok(rel)
  {
    var head := "R" + IntToString(rel);
    IntToStringAvoids(rel, ' ');
    assert head == ['R'] + IntToString(rel);
    SplitLine(head, values, " ");
    RelationTextOf('R', rel, values);
    ParseIntToString(rel);
  }


  // ---------------------------------------------------------------------
  // The identity mapper

  /** `order` lists the keys of the share map in increasing byte order:
      it is `sorted(residualShare)`. */
  predicate ListsKeys(order: seq<string>, sh: ShareMap)
  {
    StrictlySorted(order) &&
    (forall k :: k in order ==> k in sh) && (forall k :: k in sh ==> k in order)
  }

  /** There is only one such listing. */
  lemma ListsKeysUnique(order: seq<string>, sh: ShareMap)
    requires ListsKeys(order, sh)
    ensures order == SortedKeys(sh.Keys)
  {
    SortedUnique(order, SortedKeys(sh.Keys));
  }

  /** The shares of a residual join the mapper routes through. */
  predicate Routable(shares: ShareMap, pinned: set<int>, order: seq<string>)
  {
    (forall k :: k in shares ==> shares[k] >= 1) &&
    ListsKeys(order, CompleteShares(shares, pinned))
  }

  /** The completed shares in the order of their keys. */
  function RouteShares(shares: ShareMap, pinned: set<int>, order: seq<string>): (r: seq<int>)
    requires Routable(shares, pinned, order)
    ensures |r| == |order|
    ensures forall i :: 0 <= i < |r| ==> r[i] >= 1
  {
    CompleteSharesPositive(shares, pinned);
    SharesInOrder(CompleteShares(shares, pinned), order)
  }

  /** The emitted keys of one tuple under a routable residual join. */
  function RouteKeys(rd: Reading, shares: ShareMap, pinned: set<int>, order: seq<string>): (r: seq<seq<int>>)
    requires Routable(shares, pinned, order)
    ensures Distinct(r)
    ensures forall k1, k2 :: k1 in r && k2 in r ==> |k1| == |k2|
  {
    var sh := RouteShares(shares, pinned, order);
    KeysCount(Tail(rd.row), sh, rd.vals);
    Keys(Tail(rd.row), sh, rd.vals)
  }

  /** `identityMapper`: read the line, then route the tuple through the
      first residual join only, without the membership test, emitting one
      (key, value) pair per distinct key. Nothing is emitted when there is
      no residual join. */
  function IdentityMap(line: string, schema: seq<seq<int>>, residuals: seq<seq<string>>,
                       shares: seq<ShareMap>, hhs: seq<Pins>, order: seq<string>): (r: Result<seq<(string, string)>>)
    requires |residuals| > 0 && |shares| > 0 && |hhs| > 0 ==> Routable(shares[0], hhs[0].Keys, order)
    ensures r.Err? <==> ReadTuple(line, schema).Err?
    ensures r.Ok? && (|residuals| == 0 || |shares| == 0 || |hhs| == 0) ==> r.value == []
    ensures r.Ok? ==> forall i, j :: 0 <= i < j < |r.value| ==> r.value[i].0 != r.value[j].0
    ensures r.Ok? ==> forall i :: 0 <= i < |r.value| ==>
      r.value[i].1 == ValueText(ReadTuple(line, schema).value.relation, ReadTuple(line, schema).value.tuple)
  {
    var rd := ReadTuple(line, schema);
    if rd.Err? then Err(rd.error)
    else if |residuals| == 0 || |shares| == 0 || |hhs| == 0 then Ok([])
    else
      var keys := RouteKeys(rd.value, shares[0], hhs[0].Keys, order);
      var value := ValueText(rd.value.relation, rd.value.tuple);
      EmitDistinct(residuals[0], keys, value);
      Ok(Emit(residuals[0], keys, value))
  }

  /** Under the first residual join, the mapper emits one pair per key of
      the tuple, each carrying the tuple's value text: as many pairs as the
      product of the shares of the dimensions the relation does not
      carry. */
  lemma IdentityMapRoutes(line: string, schema: seq<seq<int>>, residuals: seq<seq<string>>,
                          shares: seq<ShareMap>, hhs: seq<Pins>, order: seq<string>)
    requires |residuals| > 0 && |shares| > 0 && |hhs| > 0
    requires Routable(shares[0], hhs[0].Keys, order)
    requires ReadTuple(line, schema).Ok?
    ensures var rd := ReadTuple(line, schema).value;
      var keys := Keys(Tail(rd.row), RouteShares(shares[0], hhs[0].Keys, order), rd.vals);
      var out := IdentityMap(line, schema, residuals, shares, hhs, order).value;
      out == Emit(residuals[0], keys, ValueText(rd.relation, rd.tuple)) &&
      |out| == Prod(Spread(Tail(rd.row), RouteShares(shares[0], hhs[0].Keys, order), rd.vals))
  {
    var rd := ReadTuple(line, schema).value;
    KeysCount(Tail(rd.row), RouteShares(shares[0], hhs[0].Keys, order), rd.vals);
  }
}
