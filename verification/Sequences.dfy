/** Sequence vocabulary shared by the models. */
module Sequences {
  datatype Option<+T> = None | Some(value: T)

  type Byte = b: int | 0 <= b < 256
  type Bytes = seq<Byte>

  predicate IsDigit(c: char) {
    '0' <= c <= '9'
  }

  ghost predicate Sorted(ts: seq<int>) {
    forall i, j :: 0 <= i <= j < |ts| ==> ts[i] <= ts[j]
  }

  /** The elements of xs whose flag in keep is set. */
  function Select<T>(xs: seq<T>, keep: seq<bool>): (r: seq<T>)
    requires |xs| == |keep|
  {
    if xs == [] then []
    else
      var n := |xs| - 1;
      Select(xs[..n], keep[..n]) + (if keep[n] then [xs[n]] else [])
  }

  lemma {:induction false} SelectSorted(ts: seq<int>, keep: seq<bool>)
    requires Sorted(ts) && |keep| == |ts|
    ensures Sorted(Select(ts, keep))
    ensures forall i :: 0 <= i < |Select(ts, keep)| ==> ts != [] && Select(ts, keep)[i] <= ts[|ts| - 1]
  {
    if ts != [] {
      var n := |ts| - 1;
      SelectSorted(ts[..n], keep[..n]);
      if n > 0 {
        assert ts[..n][n - 1] <= ts[n];
      }
    }
  }

  lemma SelectLast<T>(xs: seq<T>, keep: seq<bool>)
    requires |keep| == |xs| > 0
    ensures var n := |xs| - 1;
            Select(xs, keep) == if keep[n] then Select(xs[..n], keep[..n]) + [xs[n]] else Select(xs[..n], keep[..n])
  {
  }

  lemma SelectStep<T>(xs: seq<T>, keep: seq<bool>, x: T, k: bool)
    requires |xs| == |keep|
    ensures Select(xs + [x], keep + [k]) == Select(xs, keep) + (if k then [x] else [])
  {
    assert (xs + [x])[..|xs|] == xs && (keep + [k])[..|keep|] == keep;
  }

  /** count numbers from start on, step apart. */
  function Evenly(start: int, step: int, count: nat): (ts: seq<int>)
    ensures |ts| == count && forall i :: 0 <= i < count ==> ts[i] == start + i * step
  {
    seq(count, i requires 0 <= i < count => start + i * step)
  }

  lemma EvenlySteps(start: int, step: int, count: nat)
    requires step >= 0
    ensures Sorted(Evenly(start, step, count))
    ensures forall i :: 0 < i < count ==> Evenly(start, step, count)[i] - Evenly(start, step, count)[i - 1] == step
  {
    var ts := Evenly(start, step, count);
    forall i | 0 < i < count
      ensures ts[i] - ts[i - 1] == step
    {
      OneMore(i - 1, step);
    }
    StepsSorted(ts);
  }

  lemma {:induction false} StepsSorted(ts: seq<int>)
    requires forall i :: 0 < i < |ts| ==> ts[i - 1] <= ts[i]
    ensures Sorted(ts)
  {
    if |ts| > 1 {
      var n := |ts| - 1;
      assert forall i :: 0 < i < n ==> ts[..n][i - 1] <= ts[..n][i];
      StepsSorted(ts[..n]);
      assert forall i :: 0 <= i < n ==> ts[i] == ts[..n][i] <= ts[..n][n - 1] <= ts[n];
    }
  }

  lemma AppendLast<T>(a: seq<T>, b: seq<T>)
    requires b != []
    ensures var n := |b| - 1; b == b[..n] + [b[n]] && a + b == (a + b[..n]) + [b[n]]
  {
  }

  lemma SortedEnds(ts: seq<int>, t: int)
    requires Sorted(ts + [t])
    ensures Sorted(ts) && forall i :: 0 <= i < |ts| ==> ts[i] <= t
  {
    var all := ts + [t];
    assert forall i :: 0 <= i < |ts| ==> all[i] == ts[i];
    assert all[|ts|] == t;
  }

  lemma SortedExtend(ts: seq<int>, t: int)
    requires Sorted(ts) && forall i :: 0 <= i < |ts| ==> ts[i] <= t
    ensures Sorted(ts + [t])
  {
  }

  lemma OneMore(k: int, gap: int)
    ensures k * gap + gap == (k + 1) * gap
  {
  }
}
