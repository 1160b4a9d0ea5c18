/**
 * `pd.merge(left, right, on='DateTime', how='left')`: every left row, in
 * left order, joined with each right row that has the same timestamp, in
 * right order; a left row without a match is kept once, with the right
 * columns missing.
 */
module Merge {
  import opened Cells
  import opened Reducers

  /** A table row whose `DateTime` is `time`. */
  datatype Keyed<T> = Keyed(time: int, data: T)

  /** `DateTime` is unique in the table. */
  predicate UniqueTimes<T>(rows: seq<Keyed<T>>)
  {
    Distinct(KeysOf(rows, (r: Keyed<T>) => r.time))
  }

  /** The right rows matching timestamp `t`, in right order. */
  function Matches<R>(right: seq<Keyed<R>>, t: int): (ms: seq<R>)
    ensures |ms| <= |right|
    ensures forall k :: 0 <= k < |ms| ==> Keyed(t, ms[k]) in right
    ensures forall j :: 0 <= j < |right| && right[j].time == t ==> right[j].data in ms
  {
    if right == [] then []
    else
      var rest := Matches(right[1..], t);
      assert forall j :: 1 <= j < |right| ==> right[j] == right[1..][j - 1];
      if right[0].time == t then [right[0].data] + rest else rest
  }

  /** The output rows of one left row. */
  function MergeRow<L, R>(l: Keyed<L>, right: seq<Keyed<R>>): (out: seq<Keyed<(L, Option<R>)>>)
    ensures |out| >= 1
    ensures forall o :: o in out ==> o.time == l.time && o.data.0 == l.data
  {
    var ms := Matches(right, l.time);
    if ms == [] then [Keyed(l.time, (l.data, None))]
    else seq(|ms|, k requires 0 <= k < |ms| => Keyed(l.time, (l.data, Some(ms[k]))))
  }

  /** The left merge of `left` with `right` on the timestamp. */
  function LeftMerge<L, R>(left: seq<Keyed<L>>, right: seq<Keyed<R>>): (out: seq<Keyed<(L, Option<R>)>>)
    ensures |out| >= |left|
  {
    if left == [] then [] else MergeRow(left[0], right) + LeftMerge(left[1..], right)
  }

  /** The right row of timestamp `t`, if there is one (the first, if several). */
  function Lookup<R>(right: seq<Keyed<R>>, t: int): (r: Option<R>)
    ensures r.Some? ==> Keyed(t, r.value) in right
    ensures r.None? <==> forall j :: 0 <= j < |right| ==> right[j].time != t
  {
    if right == [] then None
    else if right[0].time == t then Some(right[0].data)
    else
      assert forall j :: 1 <= j < |right| ==> right[j] == right[1..][j - 1];
      Lookup(right[1..], t)
  }

  /** With a unique right timestamp, at most one right row matches. */
  lemma {:induction false} MatchesUnique<R>(right: seq<Keyed<R>>, t: int)
    requires UniqueTimes(right)
    ensures Matches(right, t) == if Lookup(right, t).Some? then [Lookup(right, t).value] else []
  {
    if right != [] {
      var tail := right[1..];
      assert UniqueTimes(tail) by {
        forall i, j | 0 <= i < j < |tail| ensures tail[i].time != tail[j].time {
          assert tail[i] == right[i + 1] && tail[j] == right[j + 1];
        }
      }
      MatchesUnique(tail, t);
      if right[0].time == t {
        assert forall j :: 0 <= j < |tail| ==> tail[j].time != t by {
          forall j | 0 <= j < |tail| ensures tail[j].time != t {
            assert tail[j] == right[j + 1];
          }
        }
      }
    }
  }

  /**
   * With `DateTime` unique in the right table, the left merge returns
   * exactly one row per left row, in left order, the left columns
   * unchanged and the right columns those of the right row with the same
   * timestamp, missing where there is none.
   */
  lemma {:induction false} LeftMergeOneRowPerLeftRow<L, R>(left: seq<Keyed<L>>, right: seq<Keyed<R>>)
    requires UniqueTimes(right)
    ensures |LeftMerge(left, right)| == |left|
    ensures forall i :: 0 <= i < |left| ==>
              LeftMerge(left, right)[i] == Keyed(left[i].time, (left[i].data, Lookup(right, left[i].time)))
  {
    if left != [] {
      LeftMergeOneRowPerLeftRow(left[1..], right);
      MatchesUnique(right, left[0].time);
      var head := MergeRow(left[0], right);
      assert head == [Keyed(left[0].time, (left[0].data, Lookup(right, left[0].time)))];
      var out := LeftMerge(left, right);
      assert out == head + LeftMerge(left[1..], right);
      forall i | 0 <= i < |left|
        ensures out[i] == Keyed(left[i].time, (left[i].data, Lookup(right, left[i].time)))
      {
        if i > 0 {
          assert out[i] == LeftMerge(left[1..], right)[i - 1];
          assert left[1..][i - 1] == left[i];
        }
      }
    }
  }

  /** Every output row of a left merge carries a left row's timestamp and columns. */
  lemma {:induction false} LeftMergeKeepsLeftColumns<L, R>(left: seq<Keyed<L>>, right: seq<Keyed<R>>)
    ensures forall o :: o in LeftMerge(left, right) ==> Keyed(o.time, o.data.0) in left
  {
    if left != [] {
      LeftMergeKeepsLeftColumns(left[1..], right);
      forall o | o in LeftMerge(left, right) ensures Keyed(o.time, o.data.0) in left {
        if o in MergeRow(left[0], right) {
          assert Keyed(o.time, o.data.0) == left[0];
        } else {
          assert o in LeftMerge(left[1..], right);
          assert Keyed(o.time, o.data.0) in left[1..];
        }
      }
    }
  }

  /**
   * A left row yields one output row per matching right row, so a
   * timestamp repeated on the right multiplies the row; without a match it
   * is kept once.
   */
  lemma MergeRowCount<L, R>(l: Keyed<L>, right: seq<Keyed<R>>)
    ensures |LeftMerge([l], right)| == if Matches(right, l.time) == [] then 1 else |Matches(right, l.time)|
  {
    assert LeftMerge([l], right) == MergeRow(l, right) + LeftMerge([l][1..], right);
  }
}
