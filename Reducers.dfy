/**
 * The column reducers pandas applies with its default `skipna=True`
 * (`sum`, `mean`, `max`), the boolean-mask row selection `df[mask]`, and
 * the row grouping of `groupby`/`resample`, with the facts the two
 * pipelines rely on: sums over a partition of the rows add up to the sum
 * over all rows.
 */
module Reducers {
  import opened Cells

  /** Every element of `ks` occurs once. */
  predicate Distinct<K(==)>(ks: seq<K>)
  {
    forall i, j :: 0 <= i < j < |ks| ==> ks[i] != ks[j]
  }

  /** The keys `ts` are strictly increasing: sorted, and each occurs once. */
  predicate StrictlyIncreasing(ts: seq<int>)
  {
    forall i, j :: 0 <= i < j < |ts| ==> ts[i] < ts[j]
  }

  /** The key `f` of every row of `xs`, in row order. */
  function KeysOf<T, K>(xs: seq<T>, f: T -> K): (ks: seq<K>)
    ensures |ks| == |xs|
    ensures forall i :: 0 <= i < |xs| ==> ks[i] == f(xs[i])
  {
    seq(|xs|, i requires 0 <= i < |xs| => f(xs[i]))
  }

  /** What a cell adds to a `sum`: its value, or nothing when it is missing. */
  function Contribution(x: Option<real>): real
  {
    if x.Some? then x.value else 0.0
  }

  /** `Series.sum()`: missing cells are skipped, and an all-missing column sums to 0. */
  function SumPresent(xs: seq<Option<real>>): real
  {
    if xs == [] then 0.0 else Contribution(xs[0]) + SumPresent(xs[1..])
  }

  /** A column without a present cell sums to 0 (`min_count` is 0). */
  lemma {:induction false} SumPresentOfMissing(xs: seq<Option<real>>)
    ensures CountPresent(xs) == 0.0 ==> SumPresent(xs) == 0.0
  {
    if xs != [] {
      SumPresentOfMissing(xs[1..]);
    }
  }

  /**
   * `Series.count()`: the number of cells that are not missing, as the real
   * number `mean` divides by.
   */
  function CountPresent(xs: seq<Option<real>>): (n: real)
    ensures n >= 0.0
    ensures n == 0.0 <==> forall i :: 0 <= i < |xs| ==> xs[i].None?
  {
    if xs == [] then 0.0
    else (if xs[0].Some? then 1.0 else 0.0) + CountPresent(xs[1..])
  }

  /** `Series.mean()`: sum over count of the present cells, missing when there are none. */
  function MeanPresent(xs: seq<Option<real>>): (m: Option<real>)
    ensures m.None? <==> forall i :: 0 <= i < |xs| ==> xs[i].None?
    ensures m.Some? ==> m.value * CountPresent(xs) == SumPresent(xs)
  {
    var n := CountPresent(xs);
    if n == 0.0 then None else Some(SumPresent(xs) / n)
  }

  /** `Series.max()`: the largest present cell, missing when there is none. */
  function MaxPresent(xs: seq<Option<real>>): (m: Option<real>)
    ensures m.None? <==> forall i :: 0 <= i < |xs| ==> xs[i].None?
    ensures m.Some? ==> exists i :: 0 <= i < |xs| && xs[i] == m
    ensures m.Some? ==> forall i :: 0 <= i < |xs| && xs[i].Some? ==> xs[i].value <= m.value
  {
    if xs == [] then None
    else
      var rest := MaxPresent(xs[1..]);
      assert forall i :: 1 <= i < |xs| ==> xs[i] == xs[1..][i - 1];
      if xs[0].None? then rest
      else if rest.None? || rest.value <= xs[0].value then xs[0]
      else rest
  }

  /**
   * `Series.idxmax()` as a position: the first present cell holding the
   * maximum, missing when every cell is missing.
   */
  function FirstArgMax(xs: seq<Option<real>>): (k: Option<nat>)
    ensures k.None? <==> forall i :: 0 <= i < |xs| ==> xs[i].None?
    ensures k.Some? ==> k.value < |xs| && xs[k.value].Some?
    ensures k.Some? ==> forall i :: 0 <= i < |xs| && xs[i].Some? ==> xs[i].value <= xs[k.value].value
    ensures k.Some? ==> forall i :: 0 <= i < k.value && xs[i].Some? ==> xs[i].value < xs[k.value].value
    ensures k.Some? ==> MaxPresent(xs) == xs[k.value]
  {
    if xs == [] then None
    else
      var rest := FirstArgMax(xs[1..]);
      assert forall i :: 1 <= i < |xs| ==> xs[i] == xs[1..][i - 1];
      if xs[0].None? then (if rest.None? then None else Some(rest.value + 1))
      else if rest.None? || xs[1..][rest.value].value <= xs[0].value then Some(0)
      else Some(rest.value + 1)
  }

  lemma {:induction false} SumPresentAppend(a: seq<Option<real>>, b: seq<Option<real>>)
    ensures SumPresent(a + b) == SumPresent(a) + SumPresent(b)
  {
    if a == [] {
      assert a + b == b;
    } else {
      assert (a + b)[1..] == a[1..] + b;
      SumPresentAppend(a[1..], b);
    }
  }

  /** A column whose present cells are all non-negative has a non-negative sum. */
  lemma {:induction false} SumPresentNonNegative(xs: seq<Option<real>>)
    requires forall i :: 0 <= i < |xs| && xs[i].Some? ==> xs[i].value >= 0.0
    ensures SumPresent(xs) >= 0.0
  {
    if xs != [] {
      SumPresentNonNegative(xs[1..]);
    }
  }

  /** `m` added once for every present cell: the count times `m`, without a product. */
  function BoundTotal(xs: seq<Option<real>>, m: real): real
  {
    if xs == [] then 0.0 else (if xs[0].Some? then m else 0.0) + BoundTotal(xs[1..], m)
  }

  lemma {:induction false} BoundTotalIsProduct(xs: seq<Option<real>>, m: real)
    ensures BoundTotal(xs, m) == CountPresent(xs) * m
  {
    if xs != [] {
      BoundTotalIsProduct(xs[1..], m);
      var c, c' := CountPresent(xs), CountPresent(xs[1..]);
      assert c == c' + (if xs[0].Some? then 1.0 else 0.0);
      assert c * m == c' * m + (if xs[0].Some? then m else 0.0);
    }
  }

  lemma {:induction false} SumAtMostBoundTotal(xs: seq<Option<real>>, m: real)
    requires forall i :: 0 <= i < |xs| && xs[i].Some? ==> xs[i].value <= m
    ensures SumPresent(xs) <= BoundTotal(xs, m)
  {
    if xs != [] {
      var rest := xs[1..];
      assert forall i :: 0 <= i < |rest| && rest[i].Some? ==> rest[i].value <= m by {
        forall i | 0 <= i < |rest| ensures rest[i] == xs[i + 1] { }
      }
      SumAtMostBoundTotal(rest, m);
    }
  }

  /** The sum of the present cells is at most their count times their maximum. */
  lemma SumAtMostCountTimesMax(xs: seq<Option<real>>, m: real)
    requires forall i :: 0 <= i < |xs| && xs[i].Some? ==> xs[i].value <= m
    ensures SumPresent(xs) <= CountPresent(xs) * m
  {
    SumAtMostBoundTotal(xs, m);
    BoundTotalIsProduct(xs, m);
  }

  /** The mean of a column never exceeds a bound on its present cells. */
  lemma MeanBoundedBy(xs: seq<Option<real>>, m: real)
    requires MeanPresent(xs).Some?
    requires forall i :: 0 <= i < |xs| && xs[i].Some? ==> xs[i].value <= m
    ensures MeanPresent(xs).value <= m
  {
    SumAtMostCountTimesMax(xs, m);
    QuotientBound(MeanPresent(xs).value, CountPresent(xs), SumPresent(xs), m);
  }

  /** The mean of a column never exceeds its maximum. */
  lemma MeanAtMostMax(xs: seq<Option<real>>)
    requires exists i :: 0 <= i < |xs| && xs[i].Some?
    ensures MeanPresent(xs).Some? && MaxPresent(xs).Some?
    ensures MeanPresent(xs).value <= MaxPresent(xs).value
  {
    MeanBoundedBy(xs, MaxPresent(xs).value);
  }

  lemma QuotientBound(q: real, n: real, s: real, m: real)
    requires q * n == s && s <= n * m && n > 0.0
    ensures q <= m
  {
  }

  // ---------------------------------------------------------------------
  // Columns of a row table, groups and boolean-mask selection
  // ---------------------------------------------------------------------

  /** The column `f` of a row table, `df[col]`. */
  function Project<T, U>(xs: seq<T>, f: T -> U): (r: seq<U>)
    ensures |r| == |xs|
    ensures forall i :: 0 <= i < |xs| ==> r[i] == f(xs[i])
  {
    if xs == [] then [] else [f(xs[0])] + Project(xs[1..], f)
  }

  lemma ProjectAppend<T, U>(a: seq<T>, b: seq<T>, f: T -> U)
    ensures Project(a + b, f) == Project(a, f) + Project(b, f)
  {
    assert forall i :: 0 <= i < |a| + |b| ==> Project(a + b, f)[i] == (Project(a, f) + Project(b, f))[i];
  }

  /** Boolean-mask selection `df[mask]`: the rows for which `p` holds, in table order. */
  function Filter<T>(xs: seq<T>, p: T -> bool): (r: seq<T>)
    ensures |r| <= |xs|
    ensures forall x :: x in r ==> x in xs && p(x)
    ensures forall x :: x in xs && p(x) ==> x in r
  {
    if xs == [] then []
    else (if p(xs[0]) then [xs[0]] else []) + Filter(xs[1..], p)
  }

  /** `r` is `s` with some elements left out, the others kept in order. */
  predicate SubsequenceOf<T(==)>(r: seq<T>, s: seq<T>)
    decreases |s|
  {
    if r == [] then true
    else if s == [] then false
    else (r[0] == s[0] && SubsequenceOf(r[1..], s[1..])) || SubsequenceOf(r, s[1..])
  }

  lemma {:induction false} FilterKeepsOrder<T>(xs: seq<T>, p: T -> bool)
    ensures SubsequenceOf(Filter(xs, p), xs)
  {
    if xs != [] {
      FilterKeepsOrder(xs[1..], p);
      var rest := Filter(xs[1..], p);
      if p(xs[0]) {
        assert Filter(xs, p) == [xs[0]] + rest;
        assert ([xs[0]] + rest)[1..] == rest;
      } else {
        assert Filter(xs, p) == rest;
        SubsequenceNonEmpty(rest, xs);
      }
    }
  }

  lemma SubsequenceNonEmpty<T>(r: seq<T>, s: seq<T>)
    requires s != [] && SubsequenceOf(r, s[1..])
    ensures SubsequenceOf(r, s)
  {
  }

  /** The rows of one `groupby` group: those whose key is `k`, in table order. */
  function KeyGroup<T, K(==)>(xs: seq<T>, key: T -> K, k: K): (g: seq<T>)
    ensures |g| <= |xs|
    ensures forall x :: x in g ==> x in xs && key(x) == k
    ensures forall x :: x in xs && key(x) == k ==> x in g
  {
    if xs == [] then []
    else (if key(xs[0]) == k then [xs[0]] else []) + KeyGroup(xs[1..], key, k)
  }

  /** The rows of `xs` are in strictly increasing order of `f`. */
  predicate OrderedBy<T>(xs: seq<T>, f: T -> int)
  {
    StrictlyIncreasing(KeysOf(xs, f))
  }

  lemma ConsOrdered<T>(x: T, rest: seq<T>, f: T -> int)
    requires OrderedBy(rest, f)
    requires forall y :: y in rest ==> f(x) < f(y)
    ensures OrderedBy([x] + rest, f)
  {
    var g := [x] + rest;
    forall i, j | 0 <= i < j < |g| ensures f(g[i]) < f(g[j]) {
      assert g[j] == rest[j - 1];
      if i > 0 {
        assert g[i] == rest[i - 1];
      } else {
        assert g[j] in rest;
      }
    }
  }

  /** A group of a table ordered by `f` is itself ordered by `f`. */
  lemma {:induction false} KeyGroupOrdered<T, K>(xs: seq<T>, key: T -> K, k: K, f: T -> int)
    requires OrderedBy(xs, f)
    ensures OrderedBy(KeyGroup(xs, key, k), f)
  {
    if xs != [] {
      var tail := xs[1..];
      assert OrderedBy(tail, f) by {
        forall i, j | 0 <= i < j < |tail| ensures f(tail[i]) < f(tail[j]) {
          assert tail[i] == xs[i + 1] && tail[j] == xs[j + 1];
        }
      }
      KeyGroupOrdered(tail, key, k, f);
      var rest := KeyGroup(tail, key, k);
      if key(xs[0]) == k {
        forall x | x in rest ensures f(xs[0]) < f(x) {
          var j :| 0 <= j < |tail| && tail[j] == x;
          assert xs[j + 1] == x;
        }
        ConsOrdered(xs[0], rest, f);
        assert KeyGroup(xs, key, k) == [xs[0]] + rest;
      } else {
        assert KeyGroup(xs, key, k) == rest;
      }
    }
  }

  /** Sum of the column `val` over the groups whose keys are listed in `ks`. */
  function SumOverKeys<T, K(==)>(xs: seq<T>, key: T -> K, val: T -> Option<real>, ks: seq<K>): real
  {
    if ks == [] then 0.0
    else SumPresent(Project(KeyGroup(xs, key, ks[0]), val)) + SumOverKeys(xs, key, val, ks[1..])
  }

  lemma {:induction false} SumOverKeysOfNoRows<T, K>(key: T -> K, val: T -> Option<real>, ks: seq<K>)
    ensures SumOverKeys([], key, val, ks) == 0.0
  {
    if ks != [] {
      SumOverKeysOfNoRows(key, val, ks[1..]);
    }
  }

  /** Peeling the first row off the table: it lands in at most one listed group. */
  lemma {:induction false} SumOverKeysFirstRow<T, K>(xs: seq<T>, key: T -> K, val: T -> Option<real>, ks: seq<K>)
    requires xs != [] && Distinct(ks)
    ensures SumOverKeys(xs, key, val, ks)
         == (if key(xs[0]) in ks then Contribution(val(xs[0])) else 0.0) + SumOverKeys(xs[1..], key, val, ks)
  {
    if ks != [] {
      assert Distinct(ks[1..]) by {
        forall i, j | 0 <= i < j < |ks[1..]| ensures ks[1..][i] != ks[1..][j] {
          assert ks[1..][i] == ks[i + 1] && ks[1..][j] == ks[j + 1];
        }
      }
      SumOverKeysFirstRow(xs, key, val, ks[1..]);
      var g := KeyGroup(xs[1..], key, ks[0]);
      GroupWithFirstRow(xs, key, val, ks[0]);
      if key(xs[0]) == ks[0] {
        assert key(xs[0]) !in ks[1..] by {
          forall j | 0 <= j < |ks[1..]| ensures ks[1..][j] != ks[0] {
            assert ks[1..][j] == ks[j + 1];
          }
        }
      } else {
        assert key(xs[0]) in ks <==> key(xs[0]) in ks[1..];
      }
    }
  }

  lemma GroupWithFirstRow<T, K>(xs: seq<T>, key: T -> K, val: T -> Option<real>, k: K)
    requires xs != []
    ensures SumPresent(Project(KeyGroup(xs, key, k), val))
         == (if key(xs[0]) == k then Contribution(val(xs[0])) else 0.0)
          + SumPresent(Project(KeyGroup(xs[1..], key, k), val))
  {
    var head: seq<T> := if key(xs[0]) == k then [xs[0]] else [];
    var g := KeyGroup(xs[1..], key, k);
    ProjectAppend(head, g, val);
    SumPresentAppend(Project(head, val), Project(g, val));
    if key(xs[0]) == k {
      assert Project(head, val) == [val(xs[0])];
      assert SumPresent([val(xs[0])]) == Contribution(val(xs[0])) + SumPresent([]);
    }
  }

  lemma ColumnWithFirstRow<T>(xs: seq<T>, val: T -> Option<real>)
    requires xs != []
    ensures SumPresent(Project(xs, val)) == Contribution(val(xs[0])) + SumPresent(Project(xs[1..], val))
  {
    assert Project(xs, val)[1..] == Project(xs[1..], val);
  }

  /**
   * The groups listed in `ks` cover every row once, so their sums add up to
   * the sum of the whole column.
   */
  lemma {:induction false} GroupSumsPartition<T, K>(xs: seq<T>, key: T -> K, val: T -> Option<real>, ks: seq<K>)
    requires Distinct(ks)
    requires forall i :: 0 <= i < |xs| ==> key(xs[i]) in ks
    ensures SumOverKeys(xs, key, val, ks) == SumPresent(Project(xs, val))
  {
    if xs == [] {
      SumOverKeysOfNoRows(key, val, ks);
    } else {
      SumOverKeysFirstRow(xs, key, val, ks);
      assert forall i :: 0 <= i < |xs[1..]| ==> xs[1..][i] == xs[i + 1];
      GroupSumsPartition(xs[1..], key, val, ks);
      ColumnWithFirstRow(xs, val);
    }
  }

  /**
   * A coarse group (a month) whose rows are exactly those of the fine groups
   * listed in `ks` (its days) sums to the sum of those fine groups.
   */
  lemma {:induction false} GroupSumRefines<T, K, M>(xs: seq<T>, fine: T -> K, coarse: T -> M,
                                                    val: T -> Option<real>, m: M, ks: seq<K>)
    requires Distinct(ks)
    requires forall i :: 0 <= i < |xs| ==> (coarse(xs[i]) == m <==> fine(xs[i]) in ks)
    ensures SumPresent(Project(KeyGroup(xs, coarse, m), val)) == SumOverKeys(xs, fine, val, ks)
  {
    if xs == [] {
      SumOverKeysOfNoRows(fine, val, ks);
    } else {
      SumOverKeysFirstRow(xs, fine, val, ks);
      GroupWithFirstRow(xs, coarse, val, m);
      assert forall i :: 0 <= i < |xs[1..]| ==> xs[1..][i] == xs[i + 1];
      GroupSumRefines(xs[1..], fine, coarse, val, m, ks);
    }
  }

  // ---------------------------------------------------------------------
  // Mean of a column of division outcomes (pandas `mean` over floats that
  // may be infinite or NaN)
  // ---------------------------------------------------------------------

  /** Sum of the finite entries. */
  function FiniteSum(xs: seq<Ratio>): real
  {
    if xs == [] then 0.0 else (if xs[0].Finite? then xs[0].value else 0.0) + FiniteSum(xs[1..])
  }

  /** Number of entries that are not NaN (the count `mean` divides by). */
  function NumberCount(xs: seq<Ratio>): (n: real)
    ensures n >= 0.0
    ensures n == 0.0 <==> forall i :: 0 <= i < |xs| ==> xs[i].NaN?
  {
    if xs == [] then 0.0 else (if xs[0].NaN? then 0.0 else 1.0) + NumberCount(xs[1..])
  }

  /**
   * `Series.mean()` over float cells: NaN cells are skipped; the mean is
   * NaN exactly when every cell is NaN or a +inf meets a -inf, a lone
   * infinity wins, and otherwise the mean is that of the finite cells.
   */
  function MeanRatio(xs: seq<Ratio>): (m: Ratio)
    ensures m.NaN? <==> NumberCount(xs) == 0.0 || (PosInf in xs && NegInf in xs)
    ensures m.PosInf? <==> PosInf in xs && NegInf !in xs
    ensures m.NegInf? <==> NegInf in xs && PosInf !in xs
    ensures m.Finite? ==> forall i :: 0 <= i < |xs| ==> xs[i].Finite? || xs[i].NaN?
    ensures m.Finite? ==> m.value * NumberCount(xs) == FiniteSum(xs)
  {
    var n := NumberCount(xs);
    if n == 0.0 then NaN
    else if PosInf in xs && NegInf in xs then NaN
    else if PosInf in xs then PosInf
    else if NegInf in xs then NegInf
    else Finite(FiniteSum(xs) / n)
  }
}
