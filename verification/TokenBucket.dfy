/**
  The per-endpoint token bucket with lazy refill. Tokens are reals; times are
  nanoseconds on a clock that does not run backwards.
 */
module TokenBucket {
  import opened Sequences
  import opened Greedy

  /** What `ns` nanoseconds add at `rate` tokens a second, before any clamp. */
  function Refill(rate: real, ns: int): real {
    rate * (ns as real / 1_000_000_000.0)
  }

  lemma RefillAdds(rate: real, a: int, b: int)
    ensures Refill(rate, a) + Refill(rate, b) == Refill(rate, a + b)
    ensures Refill(rate, 0) == 0.0
  {
  }

  lemma RefillMonotone(rate: real, a: int, b: int)
    requires rate >= 0.0 && a <= b
    ensures Refill(rate, a) <= Refill(rate, b)
  {
    RefillAdds(rate, a, b - a);
    var d := (b - a) as real / 1_000_000_000.0;
    assert rate * d >= 0.0;
  }

  /** How many of the decisions in a run were grants. */
  function Grants(granted: seq<bool>): nat {
    if granted == [] then 0
    else Grants(granted[..|granted| - 1]) + (if granted[|granted| - 1] then 1 else 0)
  }

  /**
    Everything the bucket can have collected by `now` if it was full at call j,
    less what has been granted from call j on.
   */
  function Bound(rate: real, burst: real, calls: seq<int>, granted: seq<bool>, j: nat, now: int): real
    requires j < |calls| == |granted|
  {
    burst + Refill(rate, now - calls[j]) - Grants(granted[j..]) as real
  }

  /** level is the least of burst and all those bounds: what the bucket holds just before a call at `now`. */
  ghost predicate IsLevel(rate: real, burst: real, calls: seq<int>, granted: seq<bool>, now: int, level: real)
    requires |calls| == |granted|
  {
    && level <= burst
    && (forall j :: 0 <= j < |calls| ==> level <= Bound(rate, burst, calls, granted, j, now))
    && (level == burst || exists j :: 0 <= j < |calls| && level == Bound(rate, burst, calls, granted, j, now))
  }

  /** No span that ends at `now`, this call included, takes more than burst + rate * length. */
  ghost predicate Admissible(rate: real, burst: real, calls: seq<int>, granted: seq<bool>, now: int)
    requires |calls| == |granted|
  {
    && 1.0 <= burst
    && forall j :: 0 <= j < |calls| ==>
         Grants(granted[j..]) as real + 1.0 <= burst + Refill(rate, now - calls[j])
  }

  /** The decisions on a run of calls. */
  ghost function Decisions(rate: real, burst: real, calls: seq<int>): (granted: seq<bool>)
    ensures |granted| == |calls|
  {
    if calls == [] then []
    else
      var n := |calls| - 1;
      var granted := Decisions(rate, burst, calls[..n]);
      granted + [Admissible(rate, burst, calls[..n], granted, calls[n])]
  }

  class Limiter {
    const rate: real
    const burst: real
    var tokens: real
    var last: Option<int>
    ghost var calls: seq<int>
    ghost var granted: seq<bool>

    /**
      The stored tokens are what the last call left: the least bound at that
      instant, its own grant now counted against every span, its own included.
     */
    ghost predicate Valid()
      reads this
    {
      && |calls| == |granted|
      && granted == Decisions(rate, burst, calls)
      && last == (if calls == [] then None else Some(calls[|calls| - 1]))
      && (calls != [] ==> Remaining(rate, burst, calls, granted, tokens))
    }

    constructor (rate: real, burst: int)
      ensures Valid() && this.rate == rate && this.burst == burst as real && calls == []
    {
      this.rate, this.burst := rate, burst as real;
      tokens, last := 0.0, None;
      calls, granted := [], [];
    }

    /** A call is let through exactly when no span would then exceed burst + rate * length. */
    method Allow(now: int) returns (ok: bool)
      requires Valid() && (calls != [] ==> calls[|calls| - 1] <= now)
      modifies this
      ensures Valid() && calls == old(calls) + [now] && granted == old(granted) + [ok]
      ensures ok <==> Admissible(rate, burst, old(calls), old(granted), now)
      ensures IsLevel(rate, burst, old(calls), old(granted), now, tokens + if ok then 1.0 else 0.0)
    {
      hide Refill, Remaining, IsLevel, Admissible, Decisions;
      if last.None? {
        tokens := burst;
        last := Some(now);
      }
      var elapsed := now - last.value;
      tokens := tokens + Refill(rate, elapsed);
      if tokens > burst {
        tokens := burst;
      }
      last := Some(now);

      if calls == [] {
        FullAtFirst(rate, burst, now);
      } else {
        LevelAfterRefill(rate, burst, calls, granted, now, old(tokens));
      }
      Step(rate, burst, calls, granted, now, tokens);
      if tokens < 1.0 {
        ok := false;
      } else {
        tokens := tokens - 1.0;
        ok := true;
      }
      calls, granted := calls + [now], granted + [ok];
    }
  }

  /** tokens is the least of the bounds at the last call, that call's grant included. */
  ghost predicate Remaining(rate: real, burst: real, calls: seq<int>, granted: seq<bool>, tokens: real)
    requires |calls| == |granted| > 0
  {
    var now := calls[|calls| - 1];
    && (forall j :: 0 <= j < |calls| ==> tokens <= Bound(rate, burst, calls, granted, j, now))
    && (exists j :: 0 <= j < |calls| && tokens == Bound(rate, burst, calls, granted, j, now))
  }

  lemma LevelAfterRefill(rate: real, burst: real, calls: seq<int>, granted: seq<bool>, now: int, tokens: real)
    requires |calls| == |granted| > 0 && Remaining(rate, burst, calls, granted, tokens)
    ensures var filled := tokens + Refill(rate, now - calls[|calls| - 1]);
            IsLevel(rate, burst, calls, granted, now, if filled > burst then burst else filled)
  {
    var before := calls[|calls| - 1];
    forall j | 0 <= j < |calls|
      ensures Bound(rate, burst, calls, granted, j, now)
           == Bound(rate, burst, calls, granted, j, before) + Refill(rate, now - before)
    {
      RefillAdds(rate, before - calls[j], now - before);
    }
  }

  lemma LevelDecides(rate: real, burst: real, calls: seq<int>, granted: seq<bool>, now: int, level: real)
    requires |calls| == |granted| && IsLevel(rate, burst, calls, granted, now, level)
    ensures level >= 1.0 <==> Admissible(rate, burst, calls, granted, now)
  {
    forall j | 0 <= j < |calls|
      ensures Bound(rate, burst, calls, granted, j, now) >= 1.0
         <==> Grants(granted[j..]) as real + 1.0 <= burst + Refill(rate, now - calls[j])
    {
    }
  }

  lemma GrantsExtend(granted: seq<bool>, ok: bool)
    ensures Grants(granted + [ok]) == Grants(granted) + if ok then 1 else 0
  {
    assert (granted + [ok])[..|granted|] == granted;
  }

  lemma GrantsSuffix(granted: seq<bool>, ok: bool, j: nat)
    requires j <= |granted|
    ensures Grants((granted + [ok])[j..]) == Grants(granted[j..]) + if ok then 1 else 0
  {
    assert (granted + [ok])[j..] == granted[j..] + [ok];
    GrantsExtend(granted[j..], ok);
  }

  lemma RemainingAfter(rate: real, burst: real, calls: seq<int>, granted: seq<bool>, now: int, level: real, ok: bool)
    requires |calls| == |granted| && IsLevel(rate, burst, calls, granted, now, level)
    ensures Remaining(rate, burst, calls + [now], granted + [ok], level - if ok then 1.0 else 0.0)
  {
    var calls', granted' := calls + [now], granted + [ok];
    var paid := if ok then 1.0 else 0.0;
    forall j | 0 <= j < |calls|
      ensures Bound(rate, burst, calls', granted', j, now) == Bound(rate, burst, calls, granted, j, now) - paid
    {
      GrantsSuffix(granted, ok, j);
    }
    assert Bound(rate, burst, calls', granted', |calls|, now) == burst - paid by {
      GrantsSuffix(granted, ok, |granted|);
      RefillAdds(rate, 0, 0);
    }
    if level != burst {
      var j :| 0 <= j < |calls| && level == Bound(rate, burst, calls, granted, j, now);
      assert level - paid == Bound(rate, burst, calls', granted', j, now);
    }
  }

  lemma FullAtFirst(rate: real, burst: real, now: int)
    ensures IsLevel(rate, burst, [], [], now, burst) && Refill(rate, 0) == 0.0
  {
    RefillAdds(rate, 0, 0);
  }

  lemma Step(rate: real, burst: real, calls: seq<int>, granted: seq<bool>, now: int, level: real)
    requires |calls| == |granted| && granted == Decisions(rate, burst, calls)
    requires IsLevel(rate, burst, calls, granted, now, level)
    ensures level >= 1.0 <==> Admissible(rate, burst, calls, granted, now)
    ensures Decisions(rate, burst, calls + [now]) == granted + [level >= 1.0]
    ensures Remaining(rate, burst, calls + [now], granted + [level >= 1.0], level - if level >= 1.0 then 1.0 else 0.0)
  {
    LevelDecides(rate, burst, calls, granted, now, level);
    DecisionsStep(rate, burst, calls, now);
    RemainingAfter(rate, burst, calls, granted, now, level, level >= 1.0);
  }

  lemma DecisionsStep(rate: real, burst: real, calls: seq<int>, now: int)
    ensures Decisions(rate, burst, calls + [now])
         == Decisions(rate, burst, calls) + [Admissible(rate, burst, calls, Decisions(rate, burst, calls), now)]
  {
    assert (calls + [now])[..|calls|] == calls;
  }

  // ------------------------------------------------------------- over whole runs

  /** The level exists and is unique, so the min-plus law pins the bucket down. */
  lemma LevelUnique(rate: real, burst: real, calls: seq<int>, granted: seq<bool>, now: int, a: real, b: real)
    requires |calls| == |granted|
    requires IsLevel(rate, burst, calls, granted, now, a) && IsLevel(rate, burst, calls, granted, now, b)
    ensures a == b
  {
  }

  /** With sane parameters the level stays within [0, burst] on every run. */
  lemma LevelInRange(rate: real, burst: real, calls: seq<int>, now: int, level: real)
    requires rate >= 0.0 && burst >= 0.0 && Sorted(calls + [now])
    requires IsLevel(rate, burst, calls, Decisions(rate, burst, calls), now, level)
    ensures 0.0 <= level <= burst
  {
    var granted := Decisions(rate, burst, calls);
    SortedInit(calls, now);
    forall j | 0 <= j < |calls|
      ensures Bound(rate, burst, calls, granted, j, now) >= 0.0
    {
      SpanWithin(rate, burst, calls, j, now);
    }
  }

  lemma SortedInit(calls: seq<int>, now: int)
    requires Sorted(calls + [now])
    ensures Sorted(calls) && forall i :: 0 <= i < |calls| ==> calls[i] <= now
  {
    assert forall i :: 0 <= i < |calls| ==> (calls + [now])[i] == calls[i];
    assert (calls + [now])[|calls|] == now;
  }

  /** Every span of a run, from any call j to any later instant, takes at most burst + rate * length. */
  lemma {:induction false} SpanWithin(rate: real, burst: real, calls: seq<int>, j: nat, now: int)
    requires rate >= 0.0 && burst >= 0.0 && Sorted(calls) && j < |calls| && calls[|calls| - 1] <= now
    ensures Grants(Decisions(rate, burst, calls)[j..]) as real <= burst + Refill(rate, now - calls[j])
    decreases |calls|, 1
  {
    hide Refill, Grants;
    SpanToLast(rate, burst, calls, j);
    RefillMonotone(rate, calls[|calls| - 1] - calls[j], now - calls[j]);
  }

  lemma {:induction false} SpanToLast(rate: real, burst: real, calls: seq<int>, j: nat)
    requires rate >= 0.0 && burst >= 0.0 && Sorted(calls) && j < |calls|
    ensures Grants(Decisions(rate, burst, calls)[j..]) as real <= burst + Refill(rate, calls[|calls| - 1] - calls[j])
    decreases |calls|, 0
  {
    hide *;
    var n := |calls| - 1;
    var before, t := calls[..n], calls[n];
    var granted := Decisions(rate, burst, before);
    var ok := Admissible(rate, burst, before, granted, t);
    assert before + [t] == calls;
    DecisionsStep(rate, burst, before, t);
    GrantsSuffix(granted, ok, j);
    SortedInit(before, t);
    if j == n {
      assert granted[j..] == [];
      NoGrants();
      RefillAdds(rate, 0, 0);
      FirstNeedsBurst(rate, burst, before, granted, t);
    } else if ok {
      AdmissibleSpan(rate, burst, before, granted, t, j);
    } else {
      SpanWithin(rate, burst, before, j, t);
    }
  }

  lemma NoGrants()
    ensures Grants([]) == 0
  {
  }

  lemma FirstNeedsBurst(rate: real, burst: real, calls: seq<int>, granted: seq<bool>, now: int)
    requires |calls| == |granted| && burst >= 0.0
    ensures (if Admissible(rate, burst, calls, granted, now) then 1 else 0) as real <= burst
  {
  }

  lemma AdmissibleSpan(rate: real, burst: real, calls: seq<int>, granted: seq<bool>, now: int, j: nat)
    requires |calls| == |granted| && j < |calls| && Admissible(rate, burst, calls, granted, now)
    ensures (Grants(granted[j..]) + 1) as real <= burst + Refill(rate, now - calls[j])
  {
    hide Grants, Refill;
  }

  /** A caller that waits long enough for one token after its previous call is never turned away. */
  lemma NeverStarved(rate: real, burst: real, calls: seq<int>, now: int)
    requires rate >= 0.0 && burst >= 1.0 && Sorted(calls) && calls != []
    requires Refill(rate, now - calls[|calls| - 1]) >= 1.0
    ensures Admissible(rate, burst, calls, Decisions(rate, burst, calls), now)
  {
    var granted, last := Decisions(rate, burst, calls), calls[|calls| - 1];
    forall j | 0 <= j < |calls|
      ensures Grants(granted[j..]) as real + 1.0 <= burst + Refill(rate, now - calls[j])
    {
      SpanWithin(rate, burst, calls, j, last);
      RefillAdds(rate, last - calls[j], now - last);
    }
  }

  /** The pairing page reloads every five seconds against 15 tokens a minute: it is never locked out. */
  lemma PairPageSurvivesRefresh(calls: seq<int>, now: int)
    requires Sorted(calls) && calls != [] && now - calls[|calls| - 1] >= 5_000_000_000
    ensures Admissible(0.25, 5.0, calls, Decisions(0.25, 5.0, calls), now)
  {
    RefillMonotone(0.25, 5_000_000_000, now - calls[|calls| - 1]);
    NeverStarved(0.25, 5.0, calls, now);
  }

  // ----------------------------------------------------------- in whole seconds

  lemma RefillPerSecond(rate: real, seconds: int)
    ensures Refill(rate, seconds * 1_000_000_000) == rate * seconds as real
  {
    assert (seconds * 1_000_000_000) as real / 1_000_000_000.0 == seconds as real;
  }

  lemma {:induction false} DecisionsPrefix(rate: real, burst: real, calls: seq<int>, n: nat)
    requires n <= |calls|
    ensures Decisions(rate, burst, calls)[..n] == Decisions(rate, burst, calls[..n])
    decreases |calls|
  {
    if n < |calls| {
      var init := calls[..|calls| - 1];
      assert init + [calls[|calls| - 1]] == calls;
      DecisionsStep(rate, burst, init, calls[|calls| - 1]);
      DecisionsPrefix(rate, burst, init, n);
      assert init[..n] == calls[..n];
    } else {
      assert calls[..n] == calls;
    }
  }

  /** Calls that lie within so many whole seconds take at most the burst and the rate's tokens for each of them. */
  lemma SpanInSeconds(rate: real, burst: real, calls: seq<int>, j: nat, k: nat, seconds: nat)
    requires rate >= 0.0 && burst >= 0.0 && Sorted(calls) && j <= k < |calls|
    requires calls[k] - calls[j] <= seconds * 1_000_000_000
    ensures Grants(Decisions(rate, burst, calls)[j..k + 1]) as real <= burst + rate * seconds as real
  {
    var upTo := calls[..k + 1];
    var granted := Decisions(rate, burst, calls);
    assert Sorted(upTo) && upTo[|upTo| - 1] == calls[k] && upTo[j] == calls[j];
    hide *;
    DecisionsPrefix(rate, burst, calls, k + 1);
    assert granted[..k + 1][j..] == granted[j..k + 1];
    SpanToLast(rate, burst, upTo, j);
    RefillMonotone(rate, calls[k] - calls[j], seconds * 1_000_000_000);
    RefillPerSecond(rate, seconds);
  }

  /** The pairing page's bucket, 15 a minute with a burst of 5, grants at most 20 calls in any minute. */
  lemma PairPageMinute(calls: seq<int>, j: nat, k: nat)
    requires Sorted(calls) && j <= k < |calls| && calls[k] - calls[j] <= 60_000_000_000
    ensures Grants(Decisions(0.25, 5.0, calls)[j..k + 1]) <= 20
  {
    hide *;
    SpanInSeconds(0.25, 5.0, calls, j, k, 60);
  }

  /** From a full bucket the pairing page grants five calls at once and turns away a sixth within four seconds. */
  lemma PairPageSixthWaits(calls: seq<int>)
    requires |calls| == 6 && Sorted(calls) && calls[5] - calls[0] < 4_000_000_000
    ensures forall i :: 0 <= i < 6 ==> (Decisions(0.25, 5.0, calls)[i] <==> i < 5)
  {
    var early, last := calls[..5], calls[5];
    assert Sorted(early) && early[0] == calls[0] && early + [last] == calls;
    hide *;
    FirstFivePass(early);
    DecisionsStep(0.25, 5.0, early, last);
    SixthRefused(early, Decisions(0.25, 5.0, early), last);
  }

  lemma {:induction false} FirstFivePass(calls: seq<int>)
    requires |calls| <= 5 && Sorted(calls)
    ensures forall i :: 0 <= i < |calls| ==> Decisions(0.25, 5.0, calls)[i]
  {
    hide *;
    if calls != [] {
      var n := |calls| - 1;
      var init := calls[..n];
      assert init + [calls[n]] == calls;
      SortedInit(init, calls[n]);
      FirstFivePass(init);
      EarlyCallPasses(init, Decisions(0.25, 5.0, init), calls[n]);
      DecisionsStep(0.25, 5.0, init, calls[n]);
    }
  }

  lemma EarlyCallPasses(calls: seq<int>, granted: seq<bool>, now: int)
    requires |calls| == |granted| < 5 && Sorted(calls + [now])
    ensures Admissible(0.25, 5.0, calls, granted, now)
  {
    SortedInit(calls, now);
    RefillAdds(0.25, 0, 0);
    hide Refill, Grants;
    forall j | 0 <= j < |calls|
      ensures Grants(granted[j..]) as real + 1.0 <= 5.0 + Refill(0.25, now - calls[j])
    {
      GrantsAtMost(granted[j..]);
      RefillMonotone(0.25, 0, now - calls[j]);
    }
  }

  lemma {:induction false} GrantsAtMost(granted: seq<bool>)
    ensures Grants(granted) <= |granted|
    ensures (forall i :: 0 <= i < |granted| ==> granted[i]) ==> Grants(granted) == |granted|
  {
    if granted != [] {
      GrantsAtMost(granted[..|granted| - 1]);
    }
  }

  lemma SixthRefused(calls: seq<int>, granted: seq<bool>, now: int)
    requires |calls| == |granted| == 5 && (forall i :: 0 <= i < 5 ==> granted[i]) && now - calls[0] < 4_000_000_000
    ensures !Admissible(0.25, 5.0, calls, granted, now)
  {
    assert granted[0..] == granted;
    GrantsAtMost(granted);
    assert Refill(0.25, now - calls[0]) < 1.0 by {
      RefillPerSecond(0.25, 4);
      RefillAdds(0.25, now - calls[0], 4_000_000_000 - (now - calls[0]));
      assert 0.25 * ((4_000_000_000 - (now - calls[0])) as real / 1_000_000_000.0) > 0.0;
    }
  }

  // --------------------------------------------- optimality, by the shared argument

  /** m + 1 grants may span a gap when burst and refill together cover them. */
  ghost function RuleFor(rate: real, burst: real): Rule {
    (m, gap) => m as real + 1.0 <= burst + Refill(rate, gap)
  }

  lemma RuleMonotone(rate: real, burst: real)
    requires rate >= 0.0
    ensures Monotone(RuleFor(rate, burst))
  {
    forall m, gap, longer | RuleFor(rate, burst)(m, gap) && gap <= longer
      ensures RuleFor(rate, burst)(m, longer)
    {
      RefillMonotone(rate, gap, longer);
    }
  }

  /** Only grants matter: spans that start at a denied call are never the tightest. */
  lemma AdmissibleByGrants(rate: real, burst: real, calls: seq<int>, granted: seq<bool>, now: int)
    requires rate >= 0.0 && |calls| == |granted| && Sorted(calls + [now])
    ensures Admissible(rate, burst, calls, granted, now)
       <==> Admits(RuleFor(rate, burst), Select(calls, granted), now)
  {
    if Admissible(rate, burst, calls, granted, now) {
      GrantsAdmit(rate, burst, calls, granted, now);
    }
    if Admits(RuleFor(rate, burst), Select(calls, granted), now) {
      CallsAdmit(rate, burst, calls, granted, now);
    }
  }

  lemma GrantsAdmit(rate: real, burst: real, calls: seq<int>, granted: seq<bool>, now: int)
    requires |calls| == |granted| && Admissible(rate, burst, calls, granted, now)
    ensures Admits(RuleFor(rate, burst), Select(calls, granted), now)
  {
    RefillAdds(rate, 0, 0);
    hide Refill, Grants, Select;
    forall k | 0 <= k < |Select(calls, granted)|
      ensures RuleFor(rate, burst)(|Select(calls, granted)| - k, now - Select(calls, granted)[k])
    {
      GrantIsSpaced(rate, burst, calls, granted, now, k);
    }
  }

  lemma CallsAdmit(rate: real, burst: real, calls: seq<int>, granted: seq<bool>, now: int)
    requires rate >= 0.0 && |calls| == |granted| && Sorted(calls + [now])
    requires Admits(RuleFor(rate, burst), Select(calls, granted), now)
    ensures Admissible(rate, burst, calls, granted, now)
  {
    SortedInit(calls, now);
    assert RuleFor(rate, burst)(0, 0);
    RefillAdds(rate, 0, 0);
    hide Refill, Grants, Select, Admits;
    forall j | 0 <= j < |calls|
      ensures Grants(granted[j..]) as real + 1.0 <= burst + Refill(rate, now - calls[j])
    {
      GrantsCovered(rate, burst, calls, granted, now, j);
    }
  }

  lemma GrantIsSpaced(rate: real, burst: real, calls: seq<int>, granted: seq<bool>, now: int, k: nat)
    requires |calls| == |granted| && k < |Select(calls, granted)|
    requires Admissible(rate, burst, calls, granted, now)
    ensures var h := Select(calls, granted); RuleFor(rate, burst)(|h| - k, now - h[k])
  {
    hide Refill, Grants, Select;
    var j := GrantIndex(calls, granted, k);
    assert Grants(granted[j..]) as real + 1.0 <= burst + Refill(rate, now - calls[j]);
  }

  lemma GrantsCovered(rate: real, burst: real, calls: seq<int>, granted: seq<bool>, now: int, j: nat)
    requires rate >= 0.0 && |calls| == |granted| && Sorted(calls) && j < |calls| && calls[j] <= now
    requires Admits(RuleFor(rate, burst), Select(calls, granted), now)
    ensures Grants(granted[j..]) as real + 1.0 <= burst + Refill(rate, now - calls[j])
  {
    hide Refill, Grants, Select;
    var rule, h := RuleFor(rate, burst), Select(calls, granted);
    RefillAdds(rate, 0, 0);
    var k := FirstGrantFrom(calls, granted, j);
    if k < |h| {
      assert rule(|h| - k, now - h[k]);
      RefillMonotone(rate, now - h[k], now - calls[j]);
    } else {
      assert rule(0, 0);
      RefillMonotone(rate, 0, now - calls[j]);
    }
  }

  /** The call behind the k-th grant, and how many grants follow it. */
  lemma {:induction false} GrantIndex(calls: seq<int>, granted: seq<bool>, k: nat) returns (j: nat)
    requires |calls| == |granted| && k < |Select(calls, granted)|
    ensures j < |calls| && granted[j] && calls[j] == Select(calls, granted)[k]
    ensures Grants(granted[j..]) == |Select(calls, granted)| - k
  {
    var n := |calls| - 1;
    var init := granted[..n];
    assert granted == init + [granted[n]];
    if granted[n] && k == |Select(calls[..n], init)| {
      j := n;
      GrantsSuffix(init, granted[n], n);
    } else {
      j := GrantIndex(calls[..n], init, k);
      GrantsSuffix(init, granted[n], j);
    }
  }

  /** The first grant at or after call j: all later grants, and a time not before call j. */
  lemma {:induction false} FirstGrantFrom(calls: seq<int>, granted: seq<bool>, j: nat) returns (k: nat)
    requires |calls| == |granted| && j < |calls| && Sorted(calls)
    ensures k <= |Select(calls, granted)| && Grants(granted[j..]) == |Select(calls, granted)| - k
    ensures k < |Select(calls, granted)| ==> Select(calls, granted)[k] >= calls[j]
  {
    var n := |calls| - 1;
    var init := granted[..n];
    assert granted == init + [granted[n]];
    GrantsSuffix(init, granted[n], j);
    if j == n {
      k := |Select(calls[..n], init)|;
      assert init[j..] == [];
    } else {
      k := FirstGrantFrom(calls[..n], init, j);
      assert calls[j] <= calls[n];
    }
  }

  lemma {:induction false} GrantedTimesAreGreedy(rate: real, burst: real, calls: seq<int>)
    requires rate >= 0.0 && Sorted(calls)
    ensures Select(calls, Decisions(rate, burst, calls)) == Take(RuleFor(rate, burst), calls)
  {
    if calls != [] {
      var n := |calls| - 1;
      var granted := Decisions(rate, burst, calls[..n]);
      GrantedTimesAreGreedy(rate, burst, calls[..n]);
      assert calls[..n] + [calls[n]] == calls;
      AdmissibleByGrants(rate, burst, calls[..n], granted, calls[n]);
      assert Decisions(rate, burst, calls)[..n] == granted;
    }
  }

  /**
    Asking every time is best: any choice of calls whose spans all fit the
    bucket takes no more grants, and its k-th is never earlier than the bucket's.
   */
  lemma BucketOptimal(rate: real, burst: real, calls: seq<int>, keep: seq<bool>)
    requires rate >= 0.0 && Sorted(calls) && |keep| == |calls|
    requires Spaced(RuleFor(rate, burst), Select(calls, keep))
    ensures var got, rival := Select(calls, Decisions(rate, burst, calls)), Select(calls, keep);
            |rival| <= |got| && forall k :: 0 <= k < |rival| ==> got[k] <= rival[k]
  {
    RuleMonotone(rate, burst);
    TakeStaysAhead(RuleFor(rate, burst), calls, keep);
    GrantedTimesAreGreedy(rate, burst, calls);
  }

  /** Denied calls leave no trace: drop any of them and the same calls are granted. */
  lemma Erasure(rate: real, burst: real, calls: seq<int>, keep: seq<bool>)
    requires rate >= 0.0 && Sorted(calls) && |keep| == |calls|
    requires forall i :: 0 <= i < |calls| && Decisions(rate, burst, calls)[i] ==> keep[i]
    ensures var kept := Select(calls, keep);
            Select(kept, Decisions(rate, burst, kept)) == Select(calls, Decisions(rate, burst, calls))
  {
    SelectSorted(calls, keep);
    forall i | 0 <= i < |calls| && Admits(RuleFor(rate, burst), Take(RuleFor(rate, burst), calls[..i]), calls[i])
      ensures keep[i]
    {
      DecisionAt(rate, burst, calls, i);
    }
    TakeErasure(RuleFor(rate, burst), calls, keep);
    GrantedTimesAreGreedy(rate, burst, calls);
    GrantedTimesAreGreedy(rate, burst, Select(calls, keep));
  }

  /** Each decision, in terms of what the shared rule would have taken so far. */
  lemma {:induction false} DecisionAt(rate: real, burst: real, calls: seq<int>, i: nat)
    requires rate >= 0.0 && Sorted(calls) && i < |calls|
    ensures Decisions(rate, burst, calls)[i]
       <==> Admits(RuleFor(rate, burst), Take(RuleFor(rate, burst), calls[..i]), calls[i])
    decreases |calls|
  {
    hide Refill, Grants, Admissible;
    var n := |calls| - 1;
    var granted := Decisions(rate, burst, calls[..n]);
    if i < n {
      assert calls[..n][..i] == calls[..i];
      DecisionAt(rate, burst, calls[..n], i);
    } else {
      GrantedTimesAreGreedy(rate, burst, calls[..n]);
      assert calls[..n] + [calls[n]] == calls;
      AdmissibleByGrants(rate, burst, calls[..n], granted, calls[n]);
    }
  }
}
