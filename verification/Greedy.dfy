/**
  Admission rules of the shape "a new event must be far enough behind the m-th
  most recent one". Both rate limiters are instances, so the argument that
  admitting every admissible event is best possible is made once, here.
 */
module Greedy {
  import opened Sequences

  /** rule(m, gap): an event may come `gap` after the m-th most recent admitted one (m = 0 is itself). */
  type Rule = (int, int) -> bool

  /** Waiting longer never breaks a rule. */
  ghost predicate Monotone(rule: Rule) {
    forall m, gap, longer :: rule(m, gap) && gap <= longer ==> rule(m, longer)
  }

  ghost predicate Admits(rule: Rule, h: seq<int>, t: int) {
    && rule(0, 0)
    && forall k :: 0 <= k < |h| ==> rule(|h| - k, t - h[k])
  }

  /** Every event of h was admissible after the ones before it. */
  ghost predicate Spaced(rule: Rule, h: seq<int>) {
    forall n :: 0 <= n < |h| ==> Admits(rule, h[..n], h[n])
  }

  /** Admit every admissible event. */
  ghost function Take(rule: Rule, ts: seq<int>): (h: seq<int>) {
    if ts == [] then []
    else
      var n := |ts| - 1;
      var h := Take(rule, ts[..n]);
      if Admits(rule, h, ts[n]) then h + [ts[n]] else h
  }

  lemma {:induction false} TakeIsSpaced(rule: Rule, ts: seq<int>)
    ensures Spaced(rule, Take(rule, ts))
  {
    if ts != [] {
      var n := |ts| - 1;
      var h := Take(rule, ts[..n]);
      TakeIsSpaced(rule, ts[..n]);
      SpacedExtend(rule, h, ts[n]);
    }
  }

  lemma SpacedExtend(rule: Rule, h: seq<int>, t: int)
    requires Spaced(rule, h)
    ensures Spaced(rule, h + [t]) <==> Admits(rule, h, t)
  {
    var h' := h + [t];
    assert h'[..|h|] == h;
    forall n | 0 <= n < |h|
      ensures Admits(rule, h'[..n], h'[n])
    {
      assert h'[..n] == h[..n];
    }
    if Spaced(rule, h') {
      assert Admits(rule, h'[..|h|], h'[|h|]);
    }
  }

  lemma SpacedPrefix(rule: Rule, h: seq<int>, t: int)
    requires Spaced(rule, h + [t])
    ensures Spaced(rule, h) && Admits(rule, h, t)
  {
    var h' := h + [t];
    assert h'[..|h|] == h && h'[|h|] == t;
    assert Admits(rule, h'[..|h|], h'[|h|]);
    forall n | 0 <= n < |h|
      ensures Admits(rule, h[..n], h[n])
    {
      assert h'[..n] == h[..n] && h'[n] == h[n];
      assert Admits(rule, h'[..n], h'[n]);
    }
  }

  lemma {:induction false} TakeBounded(rule: Rule, ts: seq<int>, bound: int)
    requires forall i :: 0 <= i < |ts| ==> ts[i] <= bound
    ensures forall k :: 0 <= k < |Take(rule, ts)| ==> Take(rule, ts)[k] <= bound
  {
    if ts != [] {
      TakeBounded(rule, ts[..|ts| - 1], bound);
    }
  }

  /**
    No choice of events that respects the rule gets ahead: it is never longer
    than Take, and its k-th event is never earlier than Take's k-th.
   */
  lemma {:induction false} TakeStaysAhead(rule: Rule, ts: seq<int>, keep: seq<bool>)
    requires Monotone(rule) && Sorted(ts) && |keep| == |ts|
    requires Spaced(rule, Select(ts, keep))
    ensures |Select(ts, keep)| <= |Take(rule, ts)|
    ensures forall k :: 0 <= k < |Select(ts, keep)| ==> Take(rule, ts)[k] <= Select(ts, keep)[k]
  {
    if ts != [] {
      var n := |ts| - 1;
      var g, r := Take(rule, ts[..n]), Select(ts[..n], keep[..n]);
      TakeBounded(rule, ts[..n], ts[n]);
      if keep[n] {
        SpacedPrefix(rule, r, ts[n]);
        TakeStaysAhead(rule, ts[..n], keep[..n]);
        if |g| == |r| {
          forall k | 0 <= k < |g|
            ensures rule(|g| - k, ts[n] - g[k])
          {
            assert g[k] <= r[k];
            assert rule(|r| - k, ts[n] - r[k]);
          }
        }
      } else {
        assert Select(ts, keep) == r;
        TakeStaysAhead(rule, ts[..n], keep[..n]);
      }
    }
  }

  lemma TakeStep(rule: Rule, ts: seq<int>, t: int)
    ensures Take(rule, ts + [t]) == if Admits(rule, Take(rule, ts), t) then Take(rule, ts) + [t] else Take(rule, ts)
  {
    assert (ts + [t])[..|ts|] == ts;
  }

  /** Events that were not taken leave no trace. */
  lemma {:induction false} TakeErasure(rule: Rule, ts: seq<int>, keep: seq<bool>)
    requires |keep| == |ts|
    requires forall i :: 0 <= i < |ts| && Admits(rule, Take(rule, ts[..i]), ts[i]) ==> keep[i]
    ensures Take(rule, Select(ts, keep)) == Take(rule, ts)
  {
    if ts != [] {
      var n := |ts| - 1;
      var init, rest := ts[..n], Select(ts[..n], keep[..n]);
      forall i | 0 <= i < n && Admits(rule, Take(rule, init[..i]), init[i])
        ensures keep[..n][i]
      {
        assert init[..i] == ts[..i];
      }
      TakeErasure(rule, init, keep[..n]);
      assert init + [ts[n]] == ts;
      TakeStep(rule, init, ts[n]);
      TakeStep(rule, rest, ts[n]);
      assert Select(ts, keep) == if keep[n] then rest + [ts[n]] else rest;
    }
  }
}
