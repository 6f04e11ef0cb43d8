/** The outbound limiter's guarantees over whole runs. */
module SendProofs {
  import opened Sequences
  import opened SendHistory
  import opened Greedy

  // ---------------------------------------------------------------- windows

  lemma TimesExtend(h: seq<Send>, s: Send)
    ensures Times(h + [s]) == Times(h) + [s.at]
    ensures ColdTimes(h + [s]) == if s.contact then ColdTimes(h) else ColdTimes(h) + [s.at]
  {
    assert (h + [s])[..|h|] == h;
  }

  lemma SinceExtend(ts: seq<int>, t: int, cutoff: int)
    ensures Since(ts + [t], cutoff) == Since(ts, cutoff) + (if t >= cutoff then [t] else [])
  {
    assert (ts + [t])[..|ts|] == ts;
  }

  lemma CountExtend(ts: seq<int>, t: int, lo: int, hi: int)
    ensures CountIn(ts + [t], lo, hi) == CountIn(ts, lo, hi) + (if lo <= t <= hi then 1 else 0)
  {
    assert (ts + [t])[..|ts|] == ts;
  }

  /** Pruning twice with a growing cutoff is pruning once: the windows lose nothing they still need. */
  lemma {:induction false} SinceSince(ts: seq<int>, early: int, late: int)
    requires early <= late
    ensures Since(Since(ts, early), late) == Since(ts, late)
  {
    if ts != [] {
      var n := |ts| - 1;
      SinceSince(ts[..n], early, late);
      SinceExtend(Since(ts[..n], early), ts[n], late);
      assert Since(ts, early) == if ts[n] >= early then Since(ts[..n], early) + [ts[n]] else Since(ts[..n], early);
    }
  }

  /** window is what ts holds from the first time not before cutoff on. */
  ghost predicate Trails(ts: seq<int>, window: seq<int>, cutoff: int) {
    && |window| <= |ts|
    && var k := |ts| - |window|;
    && window == ts[k..]
    && (forall i :: 0 <= i < k ==> ts[i] < cutoff)
    && (forall i :: k <= i < |ts| ==> ts[i] >= cutoff)
  }

  lemma TrailsOn(ts: seq<int>, window: seq<int>, cutoff: int, t: int)
    requires Trails(ts, window, cutoff) && t >= cutoff
    ensures Trails(ts + [t], window + [t], cutoff)
  {
    var k := |ts| - |window|;
    assert (ts + [t])[k..] == ts[k..] + [t];
  }

  lemma TrailsNothing(ts: seq<int>, window: seq<int>, cutoff: int, t: int)
    requires Trails(ts, window, cutoff) && t < cutoff && forall i :: 0 <= i < |ts| ==> ts[i] <= t
    ensures window == [] && Trails(ts + [t], [], cutoff)
  {
    assert ts != [] ==> (ts[|ts| - 1] >= cutoff <==> |window| > 0);
  }

  /** On sorted times a trailing window is a suffix. */
  lemma {:induction false} SinceIsSuffix(ts: seq<int>, cutoff: int)
    requires Sorted(ts)
    ensures Trails(ts, Since(ts, cutoff), cutoff)
  {
    if ts != [] {
      var n := |ts| - 1;
      var init, t := ts[..n], ts[n];
      assert forall i :: 0 <= i < n ==> init[i] <= t;
      hide *;
      SortedPrefix(ts, n);
      assert ts == init + [t];
      SinceExtend(init, t, cutoff);
      SinceIsSuffix(init, cutoff);
      if t >= cutoff {
        TrailsOn(init, Since(init, cutoff), cutoff, t);
      } else {
        TrailsNothing(init, Since(init, cutoff), cutoff, t);
      }
    }
  }

  /** Room in the trailing window, read off the cap-th most recent time. */
  lemma HasRoomByIndex(ts: seq<int>, cap: int, dur: int, now: int)
    requires Sorted(ts)
    ensures HasRoom(ts, cap, dur, now) <==> (cap <= 0 || |ts| < cap || ts[|ts| - cap] + dur < now)
  {
    SinceIsSuffix(ts, now - dur);
  }

  lemma {:induction false} CountMonotone(ts: seq<int>, lo: int, hi: int, lo': int, hi': int)
    requires lo' <= lo && hi <= hi'
    ensures CountIn(ts, lo, hi) <= CountIn(ts, lo', hi')
  {
    if ts != [] {
      CountMonotone(ts[..|ts| - 1], lo, hi, lo', hi');
    }
  }

  lemma {:induction false} SinceCounts(ts: seq<int>, cutoff: int, hi: int)
    requires forall i :: 0 <= i < |ts| ==> ts[i] <= hi
    ensures |Since(ts, cutoff)| == CountIn(ts, cutoff, hi)
  {
    if ts != [] {
      SinceCounts(ts[..|ts| - 1], cutoff, hi);
    }
  }

  /** The trailing window alone decides whether one more time keeps every window within the cap. */
  lemma RoomIffAtMost(ts: seq<int>, cap: int, dur: int, t: int)
    requires dur >= 0 && AtMost(ts, cap, dur)
    requires forall i :: 0 <= i < |ts| ==> ts[i] <= t
    ensures HasRoom(ts, cap, dur, t) <==> AtMost(ts + [t], cap, dur)
  {
    SinceCounts(ts, t - dur, t);
    if cap > 0 && HasRoom(ts, cap, dur, t) {
      forall a, b | b <= a + dur
        ensures CountIn(ts + [t], a, b) <= cap
      {
        CountExtend(ts, t, a, b);
        if a <= t <= b {
          CountMonotone(ts, a, b, t - dur, b);
          SinceCounts(ts, t - dur, b);
        }
      }
    }
    if cap > 0 && AtMost(ts + [t], cap, dur) {
      CountExtend(ts, t, t - dur, t);
    }
  }

  lemma {:induction false} ColdTimesOrdered(h: seq<Send>)
    requires Sorted(Times(h))
    ensures Sorted(ColdTimes(h))
    ensures forall i :: 0 <= i < |ColdTimes(h)| ==> h != [] && ColdTimes(h)[i] <= h[|h| - 1].at
  {
    if h != [] {
      var n := |h| - 1;
      TimesPrefix(h, n);
      ColdTimesOrdered(h[..n]);
      assert forall i :: 0 <= i < |h| ==> Times(h)[i] == h[i].at;
      if n > 0 {
        assert Times(h)[n - 1] <= Times(h)[n];
      }
    }
  }

  lemma TimesPrefix(h: seq<Send>, n: nat)
    requires n <= |h|
    ensures Times(h[..n]) == Times(h)[..n]
  {
  }

  lemma SortedPrefix(ts: seq<int>, n: nat)
    requires n <= |ts| && Sorted(ts)
    ensures Sorted(ts[..n])
  {
  }

  ghost predicate NotAfter(h: seq<Send>, t: int) {
    Sorted(Times(h)) && forall i :: 0 <= i < |h| ==> h[i].at <= t
  }

  lemma NotAfterCold(h: seq<Send>, t: int)
    requires NotAfter(h, t)
    ensures Sorted(ColdTimes(h)) && forall i :: 0 <= i < |ColdTimes(h)| ==> ColdTimes(h)[i] <= t
  {
    ColdTimesOrdered(h);
  }

  lemma NotAfterExtend(h: seq<Send>, s: Send, t: int)
    requires NotAfter(h, s.at) && s.at <= t
    ensures NotAfter(h + [s], t)
  {
    TimesExtend(h, s);
    assert forall i :: 0 <= i < |h| ==> Times(h)[i] == h[i].at;
  }

  lemma LaterStill(h: seq<Send>, t: int, later: int)
    requires NotAfter(h, t) && t <= later
    ensures NotAfter(h, later)
  {
  }

  lemma BeforeLast(calls: seq<Send>, t: int)
    requires calls != [] && NotAfter(calls, t)
    ensures NotAfter(calls[..|calls| - 1], calls[|calls| - 1].at) && calls[|calls| - 1].at <= t
  {
    var n := |calls| - 1;
    TimesPrefix(calls, n);
    SortedPrefix(Times(calls), n);
    assert forall i :: 0 <= i < |calls| ==> Times(calls)[i] == calls[i].at;
  }

  // ------------------------------------------------- window safety, both ways

  lemma AllowedIff(cfg: Config, h: seq<Send>, s: Send)
    ensures Decide(cfg, h, s).allowed <==>
              && (h == [] || s.at - h[|h| - 1].at >= Floor(cfg, s.contact))
              && HasRoom(Times(h), cfg.maxSendsPerHour, HOUR, s.at)
              && (s.contact || HasRoom(ColdTimes(h), cfg.nonContactMaxPerHour, HOUR, s.at))
  {
    hide Floor, HasRoom, Times, ColdTimes, Since, UntilOldestExpires;
  }

  lemma NotAfterIndexed(h: seq<Send>, t: int)
    requires NotAfter(h, t)
    ensures Sorted(Times(h)) && forall i :: 0 <= i < |h| ==> Times(h)[i] == h[i].at
  {
  }

  /** The floor is elapsed exactly when both minimums that apply are. */
  lemma FloorIsBoth(cfg: Config, contact: bool, gap: int)
    ensures gap >= Floor(cfg, contact)
       <==> gap >= cfg.minSendInterval && (!contact ==> gap >= cfg.nonContactMinInterval)
  {
  }

  lemma FloorsExtend(cfg: Config, h: seq<Send>, s: Send)
    requires FloorsKept(cfg, h)
    ensures FloorsKept(cfg, h + [s]) <==> (h == [] || s.at - h[|h| - 1].at >= Floor(cfg, s.contact))
  {
    hide Floor;
    var h' := h + [s];
    assert forall i :: 0 <= i < |h| ==> h'[i] == h[i];
    if h != [] {
      FloorIsBoth(cfg, s.contact, s.at - h[|h| - 1].at);
      if FloorsKept(cfg, h') {
        assert h'[|h|].at - h'[|h| - 1].at >= cfg.minSendInterval;
      }
    }
  }

  /**
    The limiter is exact: a send is admitted precisely when recording it keeps
    every closed window within its cap and every floor respected.
   */
  lemma AdmitIffLegal(cfg: Config, h: seq<Send>, s: Send)
    requires Legal(cfg, h) && NotAfter(h, s.at)
    ensures Decide(cfg, h, s).allowed <==> Legal(cfg, h + [s])
  {
    hide Decide, Floor, FloorsKept, AtMost, HasRoom, Times, ColdTimes, NotAfter;
    TimesExtend(h, s);
    NotAfterIndexed(h, s.at);
    NotAfterBound(h, s.at);
    NotAfterCold(h, s.at);
    RoomIffAtMost(Times(h), cfg.maxSendsPerHour, HOUR, s.at);
    RoomIffAtMost(ColdTimes(h), cfg.nonContactMaxPerHour, HOUR, s.at);
    FloorsExtend(cfg, h, s);
    AllowedIff(cfg, h, s);
  }

  lemma NotAfterBound(h: seq<Send>, t: int)
    requires NotAfter(h, t)
    ensures forall i :: 0 <= i < |h| ==> h[i].at <= t
  {
  }

  /** Window safety on every run, from any legal start. */
  lemma {:induction false} RunIsLegal(cfg: Config, h: seq<Send>, calls: seq<Send>, t: int)
    requires Legal(cfg, h) && NotAfter(h, if calls == [] then t else calls[0].at)
    requires NotAfter(calls, t)
    ensures Legal(cfg, RunFrom(cfg, h, calls)) && NotAfter(RunFrom(cfg, h, calls), t)
    decreases |calls|
  {
    if calls != [] {
      var n := |calls| - 1;
      var s := calls[n];
      TimesPrefix(calls, n);
      SortedPrefix(Times(calls), n);
      assert forall i :: 0 <= i < |calls| ==> Times(calls)[i] == calls[i].at;
      assert NotAfter(calls[..n], s.at);
      RunIsLegal(cfg, h, calls[..n], s.at);
      var h' := RunFrom(cfg, h, calls[..n]);
      AdmitIffLegal(cfg, h', s);
      NotAfterExtend(h', s, t);
    }
  }

  lemma FreshRun(cfg: Config, calls: seq<Send>, t: int)
    requires NotAfter(calls, t)
    ensures Legal(cfg, Run(cfg, calls)) && NotAfter(Run(cfg, calls), t)
  {
    assert forall i :: 0 <= i < |calls| ==> Times(calls)[i] == calls[i].at;
    RunIsLegal(cfg, [], calls, t);
  }

  lemma WindowSafety(cfg: Config, calls: seq<Send>)
    requires Sorted(Times(calls))
    ensures Legal(cfg, Run(cfg, calls))
    ensures Sorted(Times(Run(cfg, calls)))
  {
    var t := if calls == [] then 0 else calls[|calls| - 1].at;
    assert forall i :: 0 <= i < |calls| ==> Times(calls)[i] == calls[i].at;
    FreshRun(cfg, calls, t);
  }

  lemma {:induction false} CountBounded(ts: seq<int>, lo: int, hi: int)
    ensures CountIn(ts, lo, hi) <= |ts|
  {
    if ts != [] {
      CountBounded(ts[..|ts| - 1], lo, hi);
    }
  }

  lemma FewAreAtMost(ts: seq<int>, cap: int, dur: int)
    requires cap > 0 ==> |ts| <= cap
    ensures AtMost(ts, cap, dur)
  {
    forall a, b
      ensures CountIn(ts, a, b) <= |ts|
    {
      CountBounded(ts, a, b);
    }
  }

  /** Attempts that are within the limits all pass. */
  lemma {:induction false} LegalRunsWhole(cfg: Config, h: seq<Send>, t: int)
    requires Legal(cfg, h) && NotAfter(h, t)
    ensures Run(cfg, h) == h
    decreases |h|
  {
    if h != [] {
      var n := |h| - 1;
      assert h == h[..n] + [h[n]];
      BeforeLast(h, t);
      LegalPrefix(cfg, h[..n], h[n]);
      LegalRunsWhole(cfg, h[..n], h[n].at);
      AdmitIffLegal(cfg, h[..n], h[n]);
      RunStep(cfg, h[..n], h[n]);
    }
  }

  /** A lookup is admitted precisely when every closed minute stays within the lookup cap. */
  lemma {:induction false} UsyncSafety(cfg: Config, calls: seq<int>)
    requires Sorted(calls)
    ensures AtMost(RunUsync(cfg, calls), cfg.maxUsyncPerMinute, MINUTE)
    ensures calls != [] ==>
              var h := RunUsync(cfg, calls[..|calls| - 1]);
              (DecideUsync(cfg, h, calls[|calls| - 1]).allowed
               <==> AtMost(h + [calls[|calls| - 1]], cfg.maxUsyncPerMinute, MINUTE))
    ensures calls != [] ==>
              forall i :: 0 <= i < |RunUsync(cfg, calls)| ==> RunUsync(cfg, calls)[i] <= calls[|calls| - 1]
  {
    if calls != [] {
      var n := |calls| - 1;
      UsyncSafety(cfg, calls[..n]);
      if n > 0 {
        assert calls[..n][n - 1] <= calls[n];
      }
      RoomIffAtMost(RunUsync(cfg, calls[..n]), cfg.maxUsyncPerMinute, MINUTE, calls[n]);
    }
  }

  // ------------------------------------------------------------------ erasure

  /** Only denied calls are dropped. */
  ghost predicate KeepsAdmitted(cfg: Config, calls: seq<Send>, keep: seq<bool>) {
    && |keep| == |calls|
    && forall i :: 0 <= i < |calls| && Decide(cfg, Run(cfg, calls[..i]), calls[i]).allowed ==> keep[i]
  }

  lemma KeepsAdmittedPrefix(cfg: Config, calls: seq<Send>, keep: seq<bool>, n: nat)
    requires KeepsAdmitted(cfg, calls, keep) && n <= |calls|
    ensures KeepsAdmitted(cfg, calls[..n], keep[..n])
  {
    forall i | 0 <= i < n
      ensures calls[..n][..i] == calls[..i]
    {
    }
  }

  lemma {:induction false} ErasedRun(cfg: Config, calls: seq<Send>, keep: seq<bool>)
    requires KeepsAdmitted(cfg, calls, keep)
    ensures Run(cfg, Select(calls, keep)) == Run(cfg, calls)
  {
    if calls != [] {
      var n := |calls| - 1;
      KeepsAdmittedPrefix(cfg, calls, keep, n);
      ErasedRun(cfg, calls[..n], keep[..n]);
      var rest := Select(calls[..n], keep[..n]);
      RunStep(cfg, rest, calls[n]);
      assert Decide(cfg, Run(cfg, calls[..n]), calls[n]).allowed ==> keep[n];
      assert Select(calls, keep) == if keep[n] then rest + [calls[n]] else rest;
    }
  }

  /**
    Denied calls leave no trace: drop any of them and the same sends are
    admitted, each remaining call being decided as before.
   */
  lemma Erasure(cfg: Config, calls: seq<Send>, keep: seq<bool>)
    requires KeepsAdmitted(cfg, calls, keep)
    ensures Run(cfg, Select(calls, keep)) == Run(cfg, calls)
    ensures forall i :: 0 <= i < |calls| ==>
              Decide(cfg, Run(cfg, Select(calls[..i], keep[..i])), calls[i]) ==
              Decide(cfg, Run(cfg, calls[..i]), calls[i])
  {
    ErasedRun(cfg, calls, keep);
    forall i | 0 <= i < |calls|
      ensures Run(cfg, Select(calls[..i], keep[..i])) == Run(cfg, calls[..i])
    {
      KeepsAdmittedPrefix(cfg, calls, keep, i);
      ErasedRun(cfg, calls[..i], keep[..i]);
    }
  }

  // --------------------------------------------------------- greedy optimality

  function Uniform(ts: seq<int>, contact: bool): (r: seq<Send>)
    ensures |r| == |ts| && Times(r) == ts
  {
    seq(|ts|, i requires 0 <= i < |ts| => Send(ts[i], contact))
  }

  /** The limiter's rule for attempts of one kind, in terms of the gap to the m-th most recent send. */
  ghost function RuleFor(cfg: Config, contact: bool): Rule {
    (m, gap) =>
      && (m == 1 ==> gap >= Floor(cfg, contact))
      && (m == cfg.maxSendsPerHour && m > 0 ==> gap > HOUR)
      && (!contact && m == cfg.nonContactMaxPerHour && m > 0 ==> gap > HOUR)
  }

  lemma {:induction false} UniformCold(ts: seq<int>, contact: bool)
    ensures ColdTimes(Uniform(ts, contact)) == if contact then [] else ts
  {
    if ts != [] {
      var n := |ts| - 1;
      assert Uniform(ts, contact)[..n] == Uniform(ts[..n], contact);
      UniformCold(ts[..n], contact);
      assert ts[..n] + [ts[n]] == ts;
    }
  }

  /** The cap-th most recent time, if there is one, lies more than an hour back. */
  predicate Lapsed(ts: seq<int>, cap: int, t: int) {
    0 < cap <= |ts| ==> t - ts[|ts| - cap] > HOUR
  }

  lemma DecideUniform(cfg: Config, ts: seq<int>, contact: bool, t: int)
    requires Sorted(ts)
    ensures Decide(cfg, Uniform(ts, contact), Send(t, contact)).allowed <==>
            && (ts != [] ==> t - ts[|ts| - 1] >= Floor(cfg, contact))
            && Lapsed(ts, cfg.maxSendsPerHour, t)
            && (!contact ==> Lapsed(ts, cfg.nonContactMaxPerHour, t))
  {
    UniformCold(ts, contact);
    HasRoomByIndex(ts, cfg.maxSendsPerHour, HOUR, t);
    HasRoomByIndex(ts, cfg.nonContactMaxPerHour, HOUR, t);
  }

  lemma AdmitsByIndex(cfg: Config, ts: seq<int>, contact: bool, t: int)
    ensures Admits(RuleFor(cfg, contact), ts, t) <==>
            && (ts != [] ==> t - ts[|ts| - 1] >= Floor(cfg, contact))
            && Lapsed(ts, cfg.maxSendsPerHour, t)
            && (!contact ==> Lapsed(ts, cfg.nonContactMaxPerHour, t))
  {
    var rule := RuleFor(cfg, contact);
    if Admits(rule, ts, t) {
      if ts != [] {
        assert rule(|ts| - (|ts| - 1), t - ts[|ts| - 1]);
      }
      if 0 < cfg.maxSendsPerHour <= |ts| {
        assert rule(|ts| - (|ts| - cfg.maxSendsPerHour), t - ts[|ts| - cfg.maxSendsPerHour]);
      }
      if !contact && 0 < cfg.nonContactMaxPerHour <= |ts| {
        assert rule(|ts| - (|ts| - cfg.nonContactMaxPerHour), t - ts[|ts| - cfg.nonContactMaxPerHour]);
      }
    }
  }

  lemma DecideByRule(cfg: Config, ts: seq<int>, contact: bool, t: int)
    requires Sorted(ts)
    ensures Decide(cfg, Uniform(ts, contact), Send(t, contact)).allowed <==> Admits(RuleFor(cfg, contact), ts, t)
  {
    DecideUniform(cfg, ts, contact, t);
    AdmitsByIndex(cfg, ts, contact, t);
  }

  lemma UniformExtend(ts: seq<int>, contact: bool, t: int)
    ensures Uniform(ts + [t], contact) == Uniform(ts, contact) + [Send(t, contact)]
  {
  }

  lemma {:induction false} RunIsGreedy(cfg: Config, ts: seq<int>, contact: bool)
    requires Sorted(ts)
    ensures Run(cfg, Uniform(ts, contact)) == Uniform(Take(RuleFor(cfg, contact), ts), contact)
    ensures Sorted(Take(RuleFor(cfg, contact), ts))
  {
    if ts != [] {
      var n := |ts| - 1;
      var rule := RuleFor(cfg, contact);
      var g, s := Take(rule, ts[..n]), Send(ts[n], contact);
      assert forall i :: 0 <= i < n ==> ts[..n][i] <= ts[n];
      hide *;
      SortedPrefix(ts, n);
      RunIsGreedy(cfg, ts[..n], contact);
      TakeBounded(rule, ts[..n], ts[n]);
      DecideByRule(cfg, g, contact, ts[n]);
      UniformExtend(g, contact, ts[n]);
      UniformExtend(ts[..n], contact, ts[n]);
      assert ts[..n] + [ts[n]] == ts;
      TakeStep(rule, ts[..n], ts[n]);
      SortedExtend(g, ts[n]);
      RunStep(cfg, Uniform(ts[..n], contact), s);
    }
  }

  lemma NothingIsSpaced(rule: Rule)
    ensures Spaced(rule, [])
  {
  }

  lemma {:induction false} LegalIsSpaced(cfg: Config, ts: seq<int>, contact: bool)
    requires Sorted(ts) && Legal(cfg, Uniform(ts, contact))
    ensures Spaced(RuleFor(cfg, contact), ts)
  {
    hide *;
    if ts == [] {
      NothingIsSpaced(RuleFor(cfg, contact));
    } else {
      var n := |ts| - 1;
      SortedPrefix(ts, n);
      assert ts == ts[..n] + [ts[n]];
      LegalUniform(cfg, ts[..n], contact, ts[n]);
      LegalIsSpaced(cfg, ts[..n], contact);
      SpacedExtend(RuleFor(cfg, contact), ts[..n], ts[n]);
    }
  }

  lemma LegalUniform(cfg: Config, ts: seq<int>, contact: bool, t: int)
    requires Sorted(ts + [t]) && Legal(cfg, Uniform(ts + [t], contact))
    ensures Legal(cfg, Uniform(ts, contact)) && Admits(RuleFor(cfg, contact), ts, t)
  {
    var p := Uniform(ts, contact);
    SortedEnds(ts, t);
    assert NotAfter(p, t);
    hide *;
    UniformExtend(ts, contact, t);
    LegalPrefix(cfg, p, Send(t, contact));
    AdmitIffLegal(cfg, p, Send(t, contact));
    DecideByRule(cfg, ts, contact, t);
  }

  lemma LegalPrefix(cfg: Config, h: seq<Send>, s: Send)
    requires Legal(cfg, h + [s])
    ensures Legal(cfg, h)
  {
    var h' := h + [s];
    TimesExtend(h, s);
    assert forall i :: 0 <= i < |h| ==> h'[i] == h[i];
    AtMostPrefix(Times(h), s.at, cfg.maxSendsPerHour, HOUR);
    AtMostPrefix(ColdTimes(h), s.at, cfg.nonContactMaxPerHour, HOUR);
  }

  lemma AtMostPrefix(ts: seq<int>, t: int, cap: int, dur: int)
    ensures AtMost(ts + [t], cap, dur) ==> AtMost(ts, cap, dur)
  {
    forall a, b
      ensures CountIn(ts, a, b) <= CountIn(ts + [t], a, b)
    {
      CountExtend(ts, t, a, b);
    }
  }

  /**
    Asking at every opportunity is best: among attempts of one kind, no choice
    of attempts that the limits permit gets more sends through, nor gets its
    k-th send through earlier.
   */
  lemma GreedyOptimal(cfg: Config, ts: seq<int>, contact: bool, keep: seq<bool>)
    requires Sorted(ts) && |keep| == |ts|
    requires Legal(cfg, Uniform(Select(ts, keep), contact))
    ensures var got := Run(cfg, Uniform(ts, contact));
            && |Select(ts, keep)| <= |got|
            && forall k :: 0 <= k < |Select(ts, keep)| ==> got[k].at <= Select(ts, keep)[k]
  {
    SelectSorted(ts, keep);
    LegalIsSpaced(cfg, Select(ts, keep), contact);
    TakeStaysAhead(RuleFor(cfg, contact), ts, keep);
    RunIsGreedy(cfg, ts, contact);
  }

  lemma RunStep(cfg: Config, calls: seq<Send>, s: Send)
    ensures Run(cfg, calls + [s])
         == if Decide(cfg, Run(cfg, calls), s).allowed then Run(cfg, calls) + [s] else Run(cfg, calls)
  {
    assert (calls + [s])[..|calls|] == calls;
  }

  // ------------------------------------------------------ lookups, the same way

  ghost function UsyncRule(cfg: Config): Rule {
    (m, gap) => m == cfg.maxUsyncPerMinute && m > 0 ==> gap > MINUTE
  }

  lemma UsyncByRule(cfg: Config, h: seq<int>, t: int)
    requires Sorted(h)
    ensures DecideUsync(cfg, h, t).allowed <==> Admits(UsyncRule(cfg), h, t)
  {
    var cap := cfg.maxUsyncPerMinute;
    HasRoomByIndex(h, cap, MINUTE, t);
    if Admits(UsyncRule(cfg), h, t) && 0 < cap <= |h| {
      assert UsyncRule(cfg)(|h| - (|h| - cap), t - h[|h| - cap]);
    }
  }

  lemma {:induction false} UsyncIsGreedy(cfg: Config, ts: seq<int>)
    requires Sorted(ts)
    ensures RunUsync(cfg, ts) == Take(UsyncRule(cfg), ts) && Sorted(RunUsync(cfg, ts))
  {
    if ts != [] {
      var n := |ts| - 1;
      UsyncIsGreedy(cfg, ts[..n]);
      TakeBounded(UsyncRule(cfg), ts[..n], ts[n]);
      UsyncByRule(cfg, RunUsync(cfg, ts[..n]), ts[n]);
    }
  }

  lemma {:induction false} UsyncLegalIsSpaced(cfg: Config, ts: seq<int>)
    requires Sorted(ts) && AtMost(ts, cfg.maxUsyncPerMinute, MINUTE)
    ensures Spaced(UsyncRule(cfg), ts)
  {
    if ts != [] {
      var n := |ts| - 1;
      assert ts == ts[..n] + [ts[n]];
      AtMostPrefix(ts[..n], ts[n], cfg.maxUsyncPerMinute, MINUTE);
      UsyncLegalIsSpaced(cfg, ts[..n]);
      RoomIffAtMost(ts[..n], cfg.maxUsyncPerMinute, MINUTE, ts[n]);
      UsyncByRule(cfg, ts[..n], ts[n]);
      SpacedExtend(UsyncRule(cfg), ts[..n], ts[n]);
    }
  }

  /** No choice of lookups within the cap gets more through, or gets its k-th through earlier. */
  lemma UsyncOptimal(cfg: Config, ts: seq<int>, keep: seq<bool>)
    requires Sorted(ts) && |keep| == |ts|
    requires AtMost(Select(ts, keep), cfg.maxUsyncPerMinute, MINUTE)
    ensures |Select(ts, keep)| <= |RunUsync(cfg, ts)|
    ensures forall k :: 0 <= k < |Select(ts, keep)| ==> RunUsync(cfg, ts)[k] <= Select(ts, keep)[k]
  {
    SelectSorted(ts, keep);
    UsyncLegalIsSpaced(cfg, Select(ts, keep));
    TakeStaysAhead(UsyncRule(cfg), ts, keep);
    UsyncIsGreedy(cfg, ts);
  }

  /** Only denied lookups are dropped. */
  ghost predicate KeepsLookups(cfg: Config, ts: seq<int>, keep: seq<bool>) {
    && |keep| == |ts|
    && forall i :: 0 <= i < |ts| && DecideUsync(cfg, RunUsync(cfg, ts[..i]), ts[i]).allowed ==> keep[i]
  }

  lemma KeepsLookupsPrefix(cfg: Config, ts: seq<int>, keep: seq<bool>, n: nat)
    requires KeepsLookups(cfg, ts, keep) && n <= |ts|
    ensures KeepsLookups(cfg, ts[..n], keep[..n])
  {
    hide RunUsync, DecideUsync;
    forall i | 0 <= i < n
      ensures ts[..n][..i] == ts[..i]
    {
    }
  }

  lemma {:induction false} ErasedLookups(cfg: Config, ts: seq<int>, keep: seq<bool>)
    requires KeepsLookups(cfg, ts, keep)
    ensures RunUsync(cfg, Select(ts, keep)) == RunUsync(cfg, ts)
  {
    if ts != [] {
      var n := |ts| - 1;
      KeepsLookupsPrefix(cfg, ts, keep, n);
      ErasedLookups(cfg, ts[..n], keep[..n]);
      var rest := Select(ts[..n], keep[..n]);
      LookupStep(cfg, rest, ts[n]);
      assert DecideUsync(cfg, RunUsync(cfg, ts[..n]), ts[n]).allowed ==> keep[n];
      assert Select(ts, keep) == if keep[n] then rest + [ts[n]] else rest;
    }
  }

  lemma LookupStep(cfg: Config, ts: seq<int>, t: int)
    ensures RunUsync(cfg, ts + [t])
         == if DecideUsync(cfg, RunUsync(cfg, ts), t).allowed then RunUsync(cfg, ts) + [t] else RunUsync(cfg, ts)
  {
    hide DecideUsync;
    assert (ts + [t])[..|ts|] == ts;
  }

  /**
    Denied lookups leave no trace: drop any of them and the same lookups are
    admitted, each remaining one being decided as before, retry time included.
   */
  lemma UsyncErasure(cfg: Config, ts: seq<int>, keep: seq<bool>)
    requires KeepsLookups(cfg, ts, keep)
    ensures RunUsync(cfg, Select(ts, keep)) == RunUsync(cfg, ts)
    ensures forall i :: 0 <= i < |ts| ==>
              DecideUsync(cfg, RunUsync(cfg, Select(ts[..i], keep[..i])), ts[i]) ==
              DecideUsync(cfg, RunUsync(cfg, ts[..i]), ts[i])
  {
    assert |keep| == |ts|;
    hide RunUsync, DecideUsync, Select, KeepsLookups;
    ErasedLookups(cfg, ts, keep);
    forall i | 0 <= i < |ts|
      ensures RunUsync(cfg, Select(ts[..i], keep[..i])) == RunUsync(cfg, ts[..i])
    {
      KeepsLookupsPrefix(cfg, ts, keep, i);
      ErasedLookups(cfg, ts[..i], keep[..i]);
    }
  }

  // --------------------------------------------------------------- retry times

  /** The first instant from t on at which a send of this kind passes, nothing else being sent meanwhile. */
  function ReadyFrom(cfg: Config, h: seq<Send>, contact: bool, t: int): (r: int)
    ensures r >= t
  {
    var afterFloor := if h == [] then t else h[|h| - 1].at + Floor(cfg, contact);
    var afterCap := AfterCap(Times(h), cfg.maxSendsPerHour, t);
    var afterCold := if contact then t else AfterCap(ColdTimes(h), cfg.nonContactMaxPerHour, t);
    Max(t, Max(afterFloor, Max(afterCap, afterCold)))
  }

  function AfterCap(ts: seq<int>, cap: int, t: int): int {
    if 0 < cap <= |ts| then ts[|ts| - cap] + HOUR + 1 else t
  }

  function Max(a: int, b: int): int {
    if a >= b then a else b
  }

  lemma AllowedFromReady(cfg: Config, h: seq<Send>, contact: bool, t: int, later: int)
    requires NotAfter(h, t) && t <= later
    ensures Decide(cfg, h, Send(later, contact)).allowed <==> later >= ReadyFrom(cfg, h, contact, t)
  {
    NotAfterCold(h, t);
    HasRoomByIndex(Times(h), cfg.maxSendsPerHour, HOUR, later);
    HasRoomByIndex(ColdTimes(h), cfg.nonContactMaxPerHour, HOUR, later);
  }

  /** The denial's own estimate never lies beyond the true instant. */
  lemma RetryNotBeyondReady(cfg: Config, h: seq<Send>, contact: bool, t: int)
    requires NotAfter(h, t) && !Decide(cfg, h, Send(t, contact)).allowed
    ensures t + Decide(cfg, h, Send(t, contact)).retryAfter <= ReadyFrom(cfg, h, contact, t)
    ensures Decide(cfg, h, Send(t, contact)).retryAfter >= 0
  {
    NotAfterCold(h, t);
    if FloorElapsed(cfg, h, Send(t, contact)) {
      if !HasRoom(Times(h), cfg.maxSendsPerHour, HOUR, t) {
        OldestIsPivotal(Times(h), cfg.maxSendsPerHour, HOUR, t);
      } else {
        OldestIsPivotal(ColdTimes(h), cfg.nonContactMaxPerHour, HOUR, t);
      }
    }
  }

  lemma OldestIsPivotal(ts: seq<int>, cap: int, dur: int, t: int)
    requires Sorted(ts) && !HasRoom(ts, cap, dur, t)
    ensures 0 < cap <= |ts|
    ensures Since(ts, t - dur)[0] <= ts[|ts| - cap]
    ensures UntilOldestExpires(Since(ts, t - dur), t, dur) == Since(ts, t - dur)[0] + dur - t
  {
    SinceIsSuffix(ts, t - dur);
  }

  /** What the estimate means: the window gives up its oldest time right after it, and no earlier. */
  lemma SlotFrees(ts: seq<int>, dur: int, t: int, later: int)
    requires Sorted(ts) && Since(ts, t - dur) != [] && t <= later
    ensures UntilOldestExpires(Since(ts, t - dur), t, dur) >= 0
    ensures |Since(ts, later - dur)| < |Since(ts, t - dur)|
       <==> later > t + UntilOldestExpires(Since(ts, t - dur), t, dur)
  {
    SinceIsSuffix(ts, t - dur);
    SinceIsSuffix(ts, later - dur);
    hide Since;
  }

  lemma {:induction false} MoreTimesLessRoom(ts: seq<int>, ts': seq<int>, cap: int, dur: int, now: int)
    requires ts <= ts'
    ensures HasRoom(ts', cap, dur, now) ==> HasRoom(ts, cap, dur, now)
    decreases |ts'|
  {
    if ts != ts' {
      var init := ts'[..|ts'| - 1];
      MoreTimesLessRoom(ts, init, cap, dur, now);
      SinceExtend(init, ts'[|ts'| - 1], now - dur);
      assert init + [ts'[|ts'| - 1]] == ts';
    }
  }

  lemma {:induction false} ColdPrefix(h: seq<Send>, h': seq<Send>)
    requires h <= h'
    ensures ColdTimes(h) <= ColdTimes(h')
    decreases |h'|
  {
    if h != h' {
      ColdPrefix(h, h'[..|h'| - 1]);
    }
  }

  /** Extra admitted sends never open a door that was closed. */
  lemma MoreSendsAdmitLess(cfg: Config, h: seq<Send>, h': seq<Send>, s: Send)
    requires h <= h' && NotAfter(h', s.at)
    ensures Decide(cfg, h', s).allowed ==> Decide(cfg, h, s).allowed
  {
    hide Since, ColdTimes, UntilOldestExpires;
    ColdPrefix(h, h');
    assert Times(h) <= Times(h');
    MoreTimesLessRoom(Times(h), Times(h'), cfg.maxSendsPerHour, HOUR, s.at);
    MoreTimesLessRoom(ColdTimes(h), ColdTimes(h'), cfg.nonContactMaxPerHour, HOUR, s.at);
    if h != [] {
      assert Times(h')[|h| - 1] <= Times(h')[|h'| - 1];
    }
  }

  lemma {:induction false} RunExtends(cfg: Config, h: seq<Send>, calls: seq<Send>, t: int)
    requires NotAfter(h, if calls == [] then t else calls[0].at) && NotAfter(calls, t)
    ensures h <= RunFrom(cfg, h, calls) && NotAfter(RunFrom(cfg, h, calls), t)
    decreases |calls|
  {
    if calls != [] {
      var n := |calls| - 1;
      TimesPrefix(calls, n);
      SortedPrefix(Times(calls), n);
      assert forall i :: 0 <= i < |calls| ==> Times(calls)[i] == calls[i].at;
      RunExtends(cfg, h, calls[..n], calls[n].at);
      NotAfterExtend(RunFrom(cfg, h, calls[..n]), calls[n], t);
    }
  }

  /**
    After a denial at t with retry time r, no call of that kind gets through
    before t + r, whatever attempts of either kind come in between.
   */
  lemma RetrySound(cfg: Config, h: seq<Send>, contact: bool, t: int, between: seq<Send>, t': int)
    requires NotAfter(h, t) && !Decide(cfg, h, Send(t, contact)).allowed
    requires NotAfter(between, t') && t <= t' && (between != [] ==> t <= between[0].at)
    requires t' < t + Decide(cfg, h, Send(t, contact)).retryAfter
    ensures !Decide(cfg, RunFrom(cfg, h, between), Send(t', contact)).allowed
  {
    RunExtends(cfg, h, between, t');
    MoreSendsAdmitLess(cfg, h, RunFrom(cfg, h, between), Send(t', contact));
    RetryNotBeyondReady(cfg, h, contact, t);
    AllowedFromReady(cfg, h, contact, t, t');
  }

  /**
    When waiting exactly the advertised time works: the denial came from the
    floor, and no cap is full at the instant the floor elapses.
   */
  lemma RetryExactIff(cfg: Config, h: seq<Send>, contact: bool, t: int, d: Decision)
    requires NotAfter(h, t) && d == Decide(cfg, h, Send(t, contact)) && !d.allowed
    ensures Decide(cfg, h, Send(t + d.retryAfter, contact)).allowed <==>
              && !FloorElapsed(cfg, h, Send(t, contact))
              && CapsHaveRoom(cfg, h, contact, h[|h| - 1].at + Floor(cfg, contact))
  {
    if FloorElapsed(cfg, h, Send(t, contact)) {
      CapDenialRepeats(cfg, h, contact, t, d);
    } else {
      FloorDenial(cfg, h, contact, t);
      AtElapse(cfg, h, contact, h[|h| - 1].at + Floor(cfg, contact));
    }
  }

  predicate CapsHaveRoom(cfg: Config, h: seq<Send>, contact: bool, t: int) {
    && HasRoom(Times(h), cfg.maxSendsPerHour, HOUR, t)
    && (contact || HasRoom(ColdTimes(h), cfg.nonContactMaxPerHour, HOUR, t))
  }

  lemma FloorDenial(cfg: Config, h: seq<Send>, contact: bool, t: int)
    requires !FloorElapsed(cfg, h, Send(t, contact))
    ensures t + Decide(cfg, h, Send(t, contact)).retryAfter == h[|h| - 1].at + Floor(cfg, contact)
  {
  }

  lemma AtElapse(cfg: Config, h: seq<Send>, contact: bool, elapses: int)
    requires h != [] && elapses == h[|h| - 1].at + Floor(cfg, contact)
    ensures Decide(cfg, h, Send(elapses, contact)).allowed <==> CapsHaveRoom(cfg, h, contact, elapses)
  {
  }

  /** A cap denial repeats when retried exactly on time: the send that blocks it is still inside the closed hour. */
  lemma CapDenialRepeats(cfg: Config, h: seq<Send>, contact: bool, t: int, d: Decision)
    requires NotAfter(h, t) && FloorElapsed(cfg, h, Send(t, contact))
    requires d == Decide(cfg, h, Send(t, contact)) && !d.allowed
    ensures Decide(cfg, h, Send(t + d.retryAfter, contact)) == Decision(false, 0, d.reason)
  {
    hide Since, ColdTimes, UntilOldestExpires;
    NotAfterCold(h, t);
    if !HasRoom(Times(h), cfg.maxSendsPerHour, HOUR, t) {
      WindowAtExpiry(Times(h), cfg.maxSendsPerHour, HOUR, t);
    } else {
      WindowAtExpiry(ColdTimes(h), cfg.nonContactMaxPerHour, HOUR, t);
      RoomStays(Times(h), cfg.maxSendsPerHour, HOUR, t, t + d.retryAfter);
    }
  }

  lemma RoomStays(ts: seq<int>, cap: int, dur: int, t: int, later: int)
    requires Sorted(ts) && HasRoom(ts, cap, dur, t) && t <= later
    ensures HasRoom(ts, cap, dur, later)
  {
    HasRoomByIndex(ts, cap, dur, t);
    HasRoomByIndex(ts, cap, dur, later);
  }

  lemma WindowAtExpiry(ts: seq<int>, cap: int, dur: int, t: int)
    requires Sorted(ts) && !HasRoom(ts, cap, dur, t)
    ensures var expiry := t + UntilOldestExpires(Since(ts, t - dur), t, dur);
            && t <= expiry
            && !HasRoom(ts, cap, dur, expiry)
            && UntilOldestExpires(Since(ts, expiry - dur), expiry, dur) == 0
  {
    OldestIsPivotal(ts, cap, dur, t);
    SinceIsSuffix(ts, t - dur);
    var k := |ts| - |Since(ts, t - dur)|;
    SinceFromElement(ts, k, ts[k]);
  }

  /** A window that starts at an element of a sorted sequence contains that element. */
  lemma SinceFromElement(ts: seq<int>, k: nat, cutoff: int)
    requires Sorted(ts) && k < |ts| && cutoff == ts[k]
    requires k > 0 ==> ts[k - 1] < cutoff
    ensures Since(ts, cutoff) == ts[k..]
  {
    SinceIsSuffix(ts, cutoff);
    var k' := |ts| - |Since(ts, cutoff)|;
    assert forall i :: 0 <= i < k ==> ts[i] <= ts[k - 1] < cutoff;
    assert k' == k;
  }

  lemma CapDenialRetry(cfg: Config, h: seq<Send>, s: Send)
    requires FloorElapsed(cfg, h, s)
    ensures !HasRoom(Times(h), cfg.maxSendsPerHour, HOUR, s.at) ==>
              Decide(cfg, h, s).retryAfter == UntilOldestExpires(Since(Times(h), s.at - HOUR), s.at, HOUR)
    ensures HasRoom(Times(h), cfg.maxSendsPerHour, HOUR, s.at)
            && !s.contact && !HasRoom(ColdTimes(h), cfg.nonContactMaxPerHour, HOUR, s.at) ==>
              Decide(cfg, h, s).retryAfter == UntilOldestExpires(Since(ColdTimes(h), s.at - HOUR), s.at, HOUR)
  {
    hide HasRoom, Times, ColdTimes, Floor, Since, UntilOldestExpires;
  }

  lemma FloorStaysElapsed(cfg: Config, h: seq<Send>, s: Send, later: int)
    requires FloorElapsed(cfg, h, s) && s.at <= later
    ensures h == [] || later - h[|h| - 1].at >= Floor(cfg, s.contact)
    ensures h == [] || s.at - h[|h| - 1].at >= Floor(cfg, s.contact)
  {
  }

  lemma LegalCaps(cfg: Config, h: seq<Send>)
    requires Legal(cfg, h)
    ensures AtMost(Times(h), cfg.maxSendsPerHour, HOUR) && AtMost(ColdTimes(h), cfg.nonContactMaxPerHour, HOUR)
  {
  }

  /** One instant later it passes: for a contact stopped by the global cap, and for a non-contact stopped by its own. */
  lemma CapRetryAfterExpiry(cfg: Config, h: seq<Send>, contact: bool, t: int, later: int)
    requires Legal(cfg, h) && NotAfter(h, t) && FloorElapsed(cfg, h, Send(t, contact))
    requires !Decide(cfg, h, Send(t, contact)).allowed
    requires contact || HasRoom(Times(h), cfg.maxSendsPerHour, HOUR, t)
    requires later > t + Decide(cfg, h, Send(t, contact)).retryAfter
    ensures Decide(cfg, h, Send(later, contact)).allowed
  {
    hide *;
    LegalCaps(cfg, h);
    NotAfterIndexed(h, t);
    NotAfterBound(h, t);
    NotAfterCold(h, t);
    RetryNotBeyondReady(cfg, h, contact, t);
    FloorStaysElapsed(cfg, h, Send(t, contact), later);
    CapDenialRetry(cfg, h, Send(t, contact));
    AllowedIff(cfg, h, Send(t, contact));
    AllowedIff(cfg, h, Send(later, contact));
    if contact {
      FullWindowFrees(Times(h), cfg.maxSendsPerHour, HOUR, t, later);
    } else {
      RoomStays(Times(h), cfg.maxSendsPerHour, HOUR, t, later);
      FullWindowFrees(ColdTimes(h), cfg.nonContactMaxPerHour, HOUR, t, later);
    }
  }

  lemma FullWindowFrees(ts: seq<int>, cap: int, dur: int, t: int, later: int)
    requires Sorted(ts) && AtMost(ts, cap, dur) && !HasRoom(ts, cap, dur, t)
    requires forall i :: 0 <= i < |ts| ==> ts[i] <= t
    requires later > t + UntilOldestExpires(Since(ts, t - dur), t, dur)
    ensures HasRoom(ts, cap, dur, later)
  {
    hide Since, CountIn;
    OldestIsPivotal(ts, cap, dur, t);
    SinceCounts(ts, t - dur, t);
    SinceIsSuffix(ts, t - dur);
    HasRoomByIndex(ts, cap, dur, later);
  }

  function ThirtyContacts(): (h: seq<Send>)
    ensures |h| == 30
  {
    Uniform(Evenly(0, 2 * MINUTE, 30), true)
  }

  lemma ThirtyPass(t: int)
    requires t >= 58 * MINUTE
    ensures Run(DefaultConfig(), ThirtyContacts()) == ThirtyContacts()
    ensures NotAfter(ThirtyContacts(), t) && ThirtyContacts()[0].at == 0 && ThirtyContacts()[29].at == 58 * MINUTE
  {
    var cfg, ts, h := DefaultConfig(), Evenly(0, 2 * MINUTE, 30), ThirtyContacts();
    EvenlySteps(0, 2 * MINUTE, 30);
    UniformCold(ts, true);
    FewAreAtMost(ts, 30, HOUR);
    FewAreAtMost([], 15, HOUR);
    assert forall i :: 0 <= i < |h| ==> h[i].at == ts[i] <= ts[29] == 58 * MINUTE;
    assert ts[0] == 0;
    assert Legal(cfg, h);
    hide Uniform, Evenly, Legal, RunFrom;
    LegalRunsWhole(cfg, h, t);
  }

  /**
    The daemon's limits let this happen: after thirty contacts two minutes apart,
    one more 20 seconds before the hour is out is told to wait 20 seconds, and is
    turned away again when it does.
   */
  lemma DefaultCapDenialRepeats()
    ensures var cfg, t := DefaultConfig(), HOUR - 20 * SECOND;
            var h := Run(cfg, ThirtyContacts());
            && Decide(cfg, h, Send(t, true)) == Decision(false, 20 * SECOND, HourlyCap)
            && Decide(cfg, h, Send(t + 20 * SECOND, true)) == Decision(false, 0, HourlyCap)
  {
    var cfg, h, t := DefaultConfig(), ThirtyContacts(), HOUR - 20 * SECOND;
    ThirtyPass(t);
    hide ThirtyContacts, ColdTimes, Since, Run;
    SinceIsSuffix(Times(h), t - HOUR);
    CapDenialRepeats(cfg, h, true, t, Decide(cfg, h, Send(t, true)));
  }

  /**
    A denied lookup stays denied through the advertised time, that instant
    included, whatever lookups come in between.
   */
  lemma UsyncRetrySound(cfg: Config, h: seq<int>, t: int, between: seq<int>, later: int)
    requires Sorted(h) && !DecideUsync(cfg, h, t).allowed
    requires later <= t + DecideUsync(cfg, h, t).retryAfter
    ensures !DecideUsync(cfg, UsyncFrom(cfg, h, between), later).allowed
  {
    var cap := cfg.maxUsyncPerMinute;
    OldestIsPivotal(h, cap, MINUTE, t);
    HasRoomByIndex(h, cap, MINUTE, later);
    UsyncExtends(cfg, h, between);
    MoreTimesLessRoom(h, UsyncFrom(cfg, h, between), cap, MINUTE, later);
  }

  lemma {:induction false} UsyncExtends(cfg: Config, h: seq<int>, calls: seq<int>)
    ensures h <= UsyncFrom(cfg, h, calls)
  {
    if calls != [] {
      UsyncExtends(cfg, h, calls[..|calls| - 1]);
    }
  }

  /** With no lookups in between it passes right after the advertised time, and no earlier. */
  lemma UsyncRetry(cfg: Config, h: seq<int>, t: int, later: int)
    requires Sorted(h) && (forall i :: 0 <= i < |h| ==> h[i] <= t)
    requires t <= later && AtMost(h, cfg.maxUsyncPerMinute, MINUTE)
    requires !DecideUsync(cfg, h, t).allowed
    ensures DecideUsync(cfg, h, later).allowed <==> later > t + DecideUsync(cfg, h, t).retryAfter
  {
    var cap := cfg.maxUsyncPerMinute;
    OldestIsPivotal(h, cap, MINUTE, t);
    SinceCounts(h, t - MINUTE, t);
    SinceIsSuffix(h, t - MINUTE);
    HasRoomByIndex(h, cap, MINUTE, later);
  }

  // --------------------------------------------------------------- span bound

  lemma BehindTheLast(ts: seq<int>, gap: int)
    requires Sorted(ts) && ts != [] && forall i :: 0 < i < |ts| ==> ts[i] - ts[i - 1] >= gap
    ensures forall i :: 0 <= i < |ts| - 1 ==> ts[i] <= ts[|ts| - 1] - gap
  {
    var n := |ts| - 1;
    if n > 0 {
      assert forall i :: 0 <= i < n ==> ts[i] <= ts[n - 1];
    }
  }

  /** c times, each gap after the one before, fit into a span of this length. */
  predicate Fits(c: int, gap: int, length: int) {
    c > 0 ==> (c - 1) * gap <= length
  }

  lemma FitsOneMore(c: nat, gap: int, length: int)
    requires length >= 0 && Fits(c, gap, length - gap)
    ensures Fits(c + 1, gap, length)
  {
    OneMore(c - 1, gap);
  }

  lemma {:induction false} SpacedCount(ts: seq<int>, gap: int, lo: int, hi: int)
    requires Sorted(ts) && gap > 0 && forall i :: 0 < i < |ts| ==> ts[i] - ts[i - 1] >= gap
    ensures Fits(CountIn(ts, lo, hi), gap, hi - lo)
  {
    if ts != [] {
      var n := |ts| - 1;
      var init, t := ts[..n], ts[n];
      BehindTheLast(ts, gap);
      SortedPrefix(ts, n);
      assert CountIn(ts, lo, hi) == CountIn(init, lo, hi) + if lo <= t <= hi then 1 else 0;
      hide Sorted, CountIn, Fits;
      if lo <= t <= hi {
        SpacedCount(init, gap, lo, t - gap);
        CountUpTo(init, lo, hi, t - gap);
        FitsOneMore(CountIn(init, lo, hi), gap, t - lo);
        FitsLonger(CountIn(ts, lo, hi), gap, t - lo, hi - lo);
      } else {
        SpacedCount(init, gap, lo, hi);
      }
    }
  }

  lemma FitsLonger(c: int, gap: int, length: int, longer: int)
    requires Fits(c, gap, length) && length <= longer
    ensures Fits(c, gap, longer)
  {
  }

  lemma FitsIn(q: int, gap: int, x: int)
    requires gap > 0 && q * gap <= x
    ensures q <= x / gap
  {
    var d := x / gap;
    assert x < d * gap + gap;
    assert q > d ==> q * gap >= (d + 1) * gap;
  }

  /** Counting up to any bound past the last element gives the same count. */
  lemma {:induction false} CountUpTo(ts: seq<int>, lo: int, hi: int, last: int)
    requires last <= hi
    requires forall i :: 0 <= i < |ts| ==> ts[i] <= last
    ensures CountIn(ts, lo, hi) == CountIn(ts, lo, last)
  {
    if ts != [] {
      CountUpTo(ts[..|ts| - 1], lo, hi, last);
    }
  }

  lemma {:induction false} CappedCount(ts: seq<int>, cap: int, hours: nat, lo: int, hi: int)
    requires cap > 0 && AtMost(ts, cap, HOUR) && hi - lo < (hours + 1) * HOUR
    ensures CountIn(ts, lo, hi) <= cap * (hours + 1)
    decreases hours
  {
    if hours > 0 {
      var mid := lo + HOUR;
      CappedCount(ts, cap, hours - 1, mid, hi);
      CountSplit(ts, lo, mid, hi);
      assert CountIn(ts, lo, mid) <= cap;
      assert cap * (hours + 1) == cap * (hours - 1 + 1) + cap;
    }
  }

  lemma {:induction false} CountSplit(ts: seq<int>, lo: int, mid: int, hi: int)
    ensures CountIn(ts, lo, hi) <= CountIn(ts, lo, mid) + CountIn(ts, mid, hi)
  {
    if ts != [] {
      CountSplit(ts[..|ts| - 1], lo, mid, hi);
    }
  }

  /** What any observer can count: sends of every kind in a span, bounded by the floor and by the hourly cap. */
  lemma SpanBound(cfg: Config, calls: seq<Send>, lo: int, span: nat)
    requires Sorted(Times(calls)) && cfg.minSendInterval > 0 && cfg.maxSendsPerHour > 0
    ensures CountIn(Times(Run(cfg, calls)), lo, lo + span) <= span / cfg.minSendInterval + 1
    ensures CountIn(Times(Run(cfg, calls)), lo, lo + span) <= cfg.maxSendsPerHour * (span / HOUR + 1)
  {
    hide Run, RunFrom, CountIn, Since, ColdTimes;
    WindowSafety(cfg, calls);
    LegalSpan(cfg, Run(cfg, calls), lo, span);
    CappedCount(Times(Run(cfg, calls)), cfg.maxSendsPerHour, span / HOUR, lo, lo + span);
  }

  lemma LegalSpan(cfg: Config, h: seq<Send>, lo: int, span: nat)
    requires FloorsKept(cfg, h) && Sorted(Times(h)) && cfg.minSendInterval > 0
    ensures CountIn(Times(h), lo, lo + span) <= span / cfg.minSendInterval + 1
  {
    assert forall i :: 0 < i < |h| ==> h[i].at - h[i - 1].at >= Floor(cfg, h[i].contact) >= cfg.minSendInterval;
    SpacedSpan(Times(h), cfg.minSendInterval, lo, span);
  }

  lemma SpacedSpan(ts: seq<int>, gap: int, lo: int, span: nat)
    requires Sorted(ts) && gap > 0 && forall i :: 0 < i < |ts| ==> ts[i] - ts[i - 1] >= gap
    ensures CountIn(ts, lo, lo + span) <= span / gap + 1
  {
    SpacedCount(ts, gap, lo, lo + span);
    var c := CountIn(ts, lo, lo + span);
    if c > 0 {
      FitsIn(c - 1, gap, span);
    }
  }

  /** The incident the limiter was written for: under the default limits five minutes never hold more than 7 sends. */
  lemma DefaultBoundsFiveMinutes(calls: seq<Send>, lo: int)
    requires Sorted(Times(calls))
    ensures CountIn(Times(Run(DefaultConfig(), calls)), lo, lo + 5 * MINUTE) <= 7
  {
    SpanBound(DefaultConfig(), calls, lo, 5 * MINUTE);
  }
}
