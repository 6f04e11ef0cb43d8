/**
  Whether asking at every opportunity is best when the attempts are any mix of
  contacts and non-contacts, and the exact configurations where it is not.
 */
module SendOptimality {
  import opened Sequences
  import opened SendHistory
  import opened SendProofs

  /** A choice of attempts within the limits that gets more sends through than asking every time. */
  ghost predicate Beaten(cfg: Config, calls: seq<Send>, keep: seq<bool>) {
    && Sorted(Times(calls)) && |keep| == |calls|
    && Legal(cfg, Select(calls, keep))
    && |Select(calls, keep)| > |Run(cfg, calls)|
  }

  /**
    Holding back an admissible non-contact send can pay: the non-contact cap can
    fill within the hour, and a send it makes way for is one that the global cap
    or, without such a cap, the floor would have refused.
   */
  predicate SkippingPays(cfg: Config) {
    && cfg.nonContactMaxPerHour > 0
    && cfg.nonContactMaxPerHour * Floor(cfg, false) <= HOUR
    && if cfg.maxSendsPerHour > 0 then cfg.nonContactMaxPerHour < cfg.maxSendsPerHour else cfg.minSendInterval > 0
  }

  // ---------------------------------------------------- where asking is always best

  /** g is no shorter than r, and its k-th send is no later. */
  ghost predicate Ahead(g: seq<Send>, r: seq<Send>) {
    |r| <= |g| && forall k :: 0 <= k < |r| ==> g[k].at <= r[k].at
  }

  lemma AheadStep(g: seq<Send>, r: seq<Send>, s: Send, admitted: bool, chosen: bool)
    requires Ahead(g, r) && NotAfter(g, s.at) && (chosen && |g| == |r| ==> admitted)
    ensures Ahead(if admitted then g + [s] else g, if chosen then r + [s] else r)
  {
  }

  /** Contacts pass unconditionally: neither a floor nor a cap stops them. */
  predicate ContactsFree(cfg: Config) {
    cfg.maxSendsPerHour <= 0 && cfg.minSendInterval <= 0
  }

  /** Give or take the contacts the rival passed up, its colds come no sooner. */
  ghost predicate ColdsAhead(gc: seq<int>, rc: seq<int>, skipped: int) {
    && 0 <= skipped && |rc| <= |gc| + skipped
    && forall k :: skipped <= k < |rc| ==> gc[k - skipped] <= rc[k]
  }

  function ContactCount(h: seq<Send>): int {
    |h| - |ColdTimes(h)|
  }

  ghost predicate HistoryColdsAhead(g: seq<Send>, r: seq<Send>) {
    ColdsAhead(ColdTimes(g), ColdTimes(r), ContactCount(g) - ContactCount(r))
  }

  lemma ColdPassed(gc: seq<int>, rc: seq<int>, skipped: int, t: int, admitted: bool, chosen: bool)
    requires ColdsAhead(gc, rc, skipped) && (forall i :: 0 <= i < |gc| ==> gc[i] <= t)
    requires |rc| + (if chosen then 1 else 0) <= |gc| + (if admitted then 1 else 0) + skipped
    ensures ColdsAhead(if admitted then gc + [t] else gc, if chosen then rc + [t] else rc, skipped)
  {
  }

  lemma ContactPassed(gc: seq<int>, rc: seq<int>, skipped: int)
    requires ColdsAhead(gc, rc, skipped) && Sorted(gc)
    ensures ColdsAhead(gc, rc, skipped + 1)
  {
    forall k | skipped + 1 <= k < |rc|
      ensures gc[k - (skipped + 1)] <= rc[k]
    {
      if k - skipped < |gc| {
        assert gc[k - skipped - 1] <= gc[k - skipped];
      }
    }
  }

  lemma ColdsAheadStep(g: seq<Send>, r: seq<Send>, s: Send, admitted: bool, chosen: bool)
    requires HistoryColdsAhead(g, r) && NotAfter(g, s.at) && (s.contact ==> admitted)
    requires |r| + (if chosen then 1 else 0) <= |g| + (if admitted then 1 else 0)
    ensures HistoryColdsAhead(if admitted then g + [s] else g, if chosen then r + [s] else r)
  {
    hide *;
    var g', r' := if admitted then g + [s] else g, if chosen then r + [s] else r;
    var gc, rc, skipped := ColdTimes(g), ColdTimes(r), ContactCount(g) - ContactCount(r);
    InColds(g, r);
    InColds(g', r');
    NotAfterCold(g, s.at);
    ColdsAfter(g, s, admitted);
    ColdsAfter(r, s, chosen);
    if !s.contact {
      ColdPassed(gc, rc, skipped, s.at, admitted, chosen);
    } else if !chosen {
      ContactPassed(gc, rc, skipped);
    }
  }

  lemma InColds(g: seq<Send>, r: seq<Send>)
    ensures HistoryColdsAhead(g, r) <==> ColdsAhead(ColdTimes(g), ColdTimes(r), ContactCount(g) - ContactCount(r))
  {
  }

  lemma ColdsAfter(h: seq<Send>, s: Send, sent: bool)
    ensures var h' := if sent then h + [s] else h;
            && ColdTimes(h') == (if sent && !s.contact then ColdTimes(h) + [s.at] else ColdTimes(h))
            && ContactCount(h') == ContactCount(h) + (if sent && s.contact then 1 else 0)
            && |h| == |ColdTimes(h)| + ContactCount(h)
  {
    TimesExtend(h, s);
  }

  /** The i-th of a history's colds lies a floor before the last send for every cold after it. */
  lemma {:induction false} ColdSpacing(cfg: Config, h: seq<Send>, i: nat)
    requires FloorsKept(cfg, h) && Sorted(Times(h)) && i < |ColdTimes(h)|
    ensures h != [] && h[|h| - 1].at - ColdTimes(h)[i] >= (|ColdTimes(h)| - 1 - i) * Floor(cfg, false)
  {
    var n := |h| - 1;
    var init, s := h[..n], h[n];
    TimesPrefix(h, n);
    var earlier := ColdTimes(init);
    assert ColdTimes(h) == if s.contact then earlier else earlier + [s.at];
    hide ColdTimes, Floor;
    if i < |earlier| {
      SortedPrefix(Times(h), n);
      ColdSpacing(cfg, init, i);
      assert init[n - 1].at == Times(h)[n - 1] <= Times(h)[n] == s.at;
      if !s.contact {
        OneMore(|earlier| - 1 - i, Floor(cfg, false));
      }
    }
  }

  /** Whenever the floor lets a cold through, so does its cap. */
  lemma SpacingIsEnough(cfg: Config, h: seq<Send>, s: Send)
    requires Legal(cfg, h) && NotAfter(h, s.at) && !s.contact && FloorElapsed(cfg, h, s)
    requires cfg.nonContactMaxPerHour > 0 && cfg.nonContactMaxPerHour * Floor(cfg, false) > HOUR
    ensures HasRoom(ColdTimes(h), cfg.nonContactMaxPerHour, HOUR, s.at)
  {
    var cap, cold, gap := cfg.nonContactMaxPerHour, ColdTimes(h), Floor(cfg, false);
    assert FloorsKept(cfg, h) && Sorted(Times(h)) && (h != [] ==> s.at - h[|h| - 1].at >= gap);
    hide *;
    NotAfterCold(h, s.at);
    HasRoomByIndex(cold, cap, HOUR, s.at);
    if cap <= |cold| {
      ColdSpacing(cfg, h, |cold| - cap);
      assert (|cold| - 1 - (|cold| - cap)) * gap == (cap - 1) * gap;
      OneMore(cap - 1, gap);
    }
  }

  lemma {:induction false} FewerCold(h: seq<Send>, cutoff: int)
    ensures |Since(ColdTimes(h), cutoff)| <= |Since(Times(h), cutoff)|
  {
    if h != [] {
      var n := |h| - 1;
      FewerCold(h[..n], cutoff);
      assert h == h[..n] + [h[n]];
      TimesExtend(h[..n], h[n]);
      SinceExtend(Times(h[..n]), h[n].at, cutoff);
      SinceExtend(ColdTimes(h[..n]), h[n].at, cutoff);
    }
  }

  /** At equal counts, what the rival may send next the limiter admits too. */
  lemma LevelAdmits(cfg: Config, g: seq<Send>, r: seq<Send>, s: Send)
    requires !SkippingPays(cfg) && Legal(cfg, g) && NotAfter(g, s.at) && NotAfter(r, s.at)
    requires Ahead(g, r) && |g| == |r| && (ContactsFree(cfg) ==> HistoryColdsAhead(g, r))
    requires Decide(cfg, r, s).allowed
    ensures Decide(cfg, g, s).allowed
  {
    hide Since, ColdTimes, Legal, UntilOldestExpires;
    var cap, coldCap := cfg.maxSendsPerHour, cfg.nonContactMaxPerHour;
    assert FloorElapsed(cfg, g, s);
    HasRoomByIndex(Times(g), cap, HOUR, s.at);
    HasRoomByIndex(Times(r), cap, HOUR, s.at);
    if !s.contact && coldCap > 0 {
      if coldCap * Floor(cfg, false) > HOUR {
        SpacingIsEnough(cfg, g, s);
      } else if cap > 0 {
        FewerCold(g, s.at - HOUR);
      } else {
        NotAfterCold(g, s.at);
        NotAfterCold(r, s.at);
        HasRoomByIndex(ColdTimes(g), coldCap, HOUR, s.at);
        HasRoomByIndex(ColdTimes(r), coldCap, HOUR, s.at);
      }
    }
  }

  lemma {:induction false} SelectNotAfter(calls: seq<Send>, keep: seq<bool>, t: int)
    requires |keep| == |calls| && NotAfter(calls, t)
    ensures NotAfter(Select(calls, keep), t)
  {
    if calls != [] {
      var n := |calls| - 1;
      BeforeLast(calls, t);
      var r := Select(calls[..n], keep[..n]);
      SelectNotAfter(calls[..n], keep[..n], calls[n].at);
      NotAfterExtend(r, calls[n], t);
      assert Select(calls, keep) == if keep[n] then r + [calls[n]] else r;
    }
  }

  /**
    Where holding back cannot pay, no choice the limits permit gets more sends
    through than asking every time, nor its k-th send through earlier, however
    contacts and non-contacts are mixed.
   */
  lemma {:induction false} StaysAhead(cfg: Config, calls: seq<Send>, keep: seq<bool>, t: int)
    requires !SkippingPays(cfg) && NotAfter(calls, t) && |keep| == |calls|
    requires Legal(cfg, Select(calls, keep))
    ensures Ahead(Run(cfg, calls), Select(calls, keep))
    ensures ContactsFree(cfg) ==> HistoryColdsAhead(Run(cfg, calls), Select(calls, keep))
    decreases |calls|
  {
    hide Select, RunFrom, Legal, Decide, Ahead, HistoryColdsAhead, NotAfter;
    if calls == [] {
      NothingYet(cfg);
    } else {
      var n := |calls| - 1;
      var init, s := calls[..n], calls[n];
      var g, r := Run(cfg, init), Select(init, keep[..n]);
      BeforeLast(calls, t);
      FreshRun(cfg, init, s.at);
      SelectNotAfter(init, keep[..n], s.at);
      LastCall(cfg, calls, keep);
      if keep[n] {
        LegalPrefix(cfg, r, s);
        AdmitIffLegal(cfg, r, s);
      }
      StaysAhead(cfg, init, keep[..n], s.at);
      if keep[n] && |g| == |r| {
        LevelAdmits(cfg, g, r, s);
      }
      ExtendBoth(cfg, g, r, s, keep[n]);
    }
  }

  lemma NothingYet(cfg: Config)
    ensures Run(cfg, []) == [] && Select<Send>([], []) == []
    ensures Ahead([], []) && HistoryColdsAhead([], [])
  {
  }

  lemma LastCall(cfg: Config, calls: seq<Send>, keep: seq<bool>)
    requires |keep| == |calls| > 0
    ensures var n := |calls| - 1;
            var g, r := Run(cfg, calls[..n]), Select(calls[..n], keep[..n]);
            && Run(cfg, calls) == (if Decide(cfg, g, calls[n]).allowed then g + [calls[n]] else g)
            && Select(calls, keep) == (if keep[n] then r + [calls[n]] else r)
  {
    hide *;
    var n := |calls| - 1;
    assert calls[..n] + [calls[n]] == calls;
    RunStep(cfg, calls[..n], calls[n]);
    SelectLast(calls, keep);
  }

  lemma ExtendBoth(cfg: Config, g: seq<Send>, r: seq<Send>, s: Send, chosen: bool)
    requires NotAfter(g, s.at) && Ahead(g, r)
    requires chosen && |g| == |r| ==> Decide(cfg, g, s).allowed
    ensures var g', r' := if Decide(cfg, g, s).allowed then g + [s] else g, if chosen then r + [s] else r;
            Ahead(g', r') && (ContactsFree(cfg) && HistoryColdsAhead(g, r) ==> HistoryColdsAhead(g', r'))
  {
    var admitted := Decide(cfg, g, s).allowed;
    assert |r| + (if chosen then 1 else 0) <= |g| + (if admitted then 1 else 0);
    hide HistoryColdsAhead, Ahead;
    AheadStep(g, r, s, admitted, chosen);
    if ContactsFree(cfg) && HistoryColdsAhead(g, r) {
      assert s.contact ==> admitted by {
        assert forall i :: 0 <= i < |g| ==> g[i].at <= s.at;
      }
      ColdsAheadStep(g, r, s, admitted, chosen);
    }
  }

  /** StaysAhead, for whole runs. */
  lemma MixedOptimal(cfg: Config, calls: seq<Send>, keep: seq<bool>)
    requires !SkippingPays(cfg)
    requires Sorted(Times(calls)) && |keep| == |calls| && Legal(cfg, Select(calls, keep))
    ensures var got, rival := Run(cfg, calls), Select(calls, keep);
            |rival| <= |got| && forall k :: 0 <= k < |rival| ==> got[k].at <= rival[k].at
  {
    var t := if calls == [] then 0 else calls[|calls| - 1].at;
    assert forall i :: 0 <= i < |calls| ==> Times(calls)[i] == calls[i].at;
    StaysAhead(cfg, calls, keep, t);
  }

  // ----------------------------------------------------------- where skipping pays

  /** The least wait before a cold, at least one instant. */
  function Wait(cfg: Config): int {
    if Floor(cfg, false) > 1 then Floor(cfg, false) else 1
  }

  function Step(cfg: Config): int {
    if Floor(cfg, false) > 0 then Floor(cfg, false) else 0
  }

  /** Contacts sent up front, to fill the global cap together with the colds; none if a floor does the refusing. */
  function Fillers(cfg: Config): int {
    if cfg.minSendInterval > 0 then 0 else cfg.maxSendsPerHour - cfg.nonContactMaxPerHour
  }

  /** m contacts at once, then n colds from start on, step apart. */
  function Burst(m: nat, start: int, step: int, n: nat): (h: seq<Send>)
    ensures |h| == m + n
    ensures forall i :: 0 <= i < m ==> h[i] == Send(0, true)
    ensures forall i :: m <= i < m + n ==> h[i] == Send(start + (i - m) * step, false)
  {
    Uniform(Evenly(0, 0, m), true) + Uniform(Evenly(start, step, n), false)
  }

  /** Sends that fill the non-contact cap. */
  function Filling(cfg: Config): (h: seq<Send>)
    requires SkippingPays(cfg)
    ensures h != []
  {
    Burst(Fillers(cfg), Wait(cfg), Step(cfg), cfg.nonContactMaxPerHour)
  }

  /** When the contact comes: with the last cold, or as the hour ends. */
  function ContactAt(cfg: Config): int
    requires SkippingPays(cfg)
  {
    if cfg.minSendInterval > 0 then cfg.nonContactMaxPerHour * Floor(cfg, false) else HOUR
  }

  function LateContact(cfg: Config): Send
    requires SkippingPays(cfg)
  {
    Send(ContactAt(cfg), true)
  }

  function LateCold(cfg: Config): Send
    requires SkippingPays(cfg)
  {
    Send(ContactAt(cfg) + Wait(cfg), false)
  }

  /** After filling the cap, one contact and one cold that asking every time loses. */
  function Tempting(cfg: Config): seq<Send>
    requires SkippingPays(cfg)
  {
    Filling(cfg) + [LateContact(cfg)] + [LateCold(cfg)]
  }

  /** Let the last of the filling colds pass. */
  function AllButOne(n: nat): (keep: seq<bool>)
    requires n > 0
    ensures |keep| == n + 2
  {
    seq(n - 1, i requires 0 <= i < n - 1 => true) + [false] + [true] + [true]
  }

  lemma NoColdTimes()
    ensures ColdTimes([]) == []
  {
  }

  lemma {:induction false} ColdTimesConcat(a: seq<Send>, b: seq<Send>)
    ensures ColdTimes(a + b) == ColdTimes(a) + ColdTimes(b)
  {
    hide *;
    if b == [] {
      assert a + b == a;
      NoColdTimes();
    } else {
      var init, s := b[..|b| - 1], b[|b| - 1];
      ColdTimesConcat(a, init);
      AppendLast(a, b);
      TimesExtend(a + init, s);
      TimesExtend(init, s);
    }
  }

  lemma BurstCold(m: nat, start: int, step: int, n: nat)
    ensures ColdTimes(Burst(m, start, step, n)) == Evenly(start, step, n)
  {
    UniformCold(Evenly(0, 0, m), true);
    UniformCold(Evenly(start, step, n), false);
    hide ColdTimes;
    ColdTimesConcat(Uniform(Evenly(0, 0, m), true), Uniform(Evenly(start, step, n), false));
  }

  lemma BurstGaps(m: nat, start: int, step: int, n: nat, i: nat)
    requires 0 < i < m + n
    ensures var h := Burst(m, start, step, n);
            h[i].at - h[i - 1].at == if i < m then 0 else if i == m then start else step
  {
    hide Burst;
    if i > m {
      OneMore(i - m - 1, step);
    } else if i == m {
      assert (i - m) * step == 0;
    }
  }

  lemma BurstOrdered(m: nat, start: int, step: int, n: nat)
    requires 0 <= start && 0 <= step && n > 0
    ensures NotAfter(Burst(m, start, step, n), start + (n - 1) * step)
    ensures Burst(m, start, step, n)[m + n - 1].at == start + (n - 1) * step
  {
    var h := Burst(m, start, step, n);
    hide Burst;
    forall i | 0 < i < |h|
      ensures Times(h)[i - 1] <= Times(h)[i]
    {
      BurstGaps(m, start, step, n, i);
    }
    StepsSorted(Times(h));
    assert h[m + n - 1].at == start + (n - 1) * step;
    assert forall i :: 0 <= i < |h| ==> h[i].at == Times(h)[i] <= Times(h)[m + n - 1];
  }

  /** What the filling sends leave for the two that follow. */
  lemma FillingFits(cfg: Config)
    requires SkippingPays(cfg)
    ensures var h := Filling(cfg);
            && h != [] && FloorsKept(cfg, h) && NotAfter(h, ContactAt(cfg)) && ContactAt(cfg) <= HOUR
            && (cfg.minSendInterval > 0 ==> h[|h| - 1].at == ContactAt(cfg))
            && (cfg.minSendInterval > 0 && |h| > 1 ==> ContactAt(cfg) - h[|h| - 2].at >= cfg.minSendInterval)
  {
    var m, n, h := Fillers(cfg), cfg.nonContactMaxPerHour, Filling(cfg);
    var g := Floor(cfg, false);
    BurstOrdered(m, Wait(cfg), Step(cfg), n);
    OneMore(n - 1, Step(cfg));
    assert Wait(cfg) + (n - 1) * Step(cfg) <= HOUR;
    hide Burst, NotAfter;
    forall i | 0 < i < |h|
      ensures h[i].at - h[i - 1].at >= Floor(cfg, h[i].contact)
    {
      BurstGaps(m, Wait(cfg), Step(cfg), n, i);
    }
    if |h| > 1 {
      BurstGaps(m, Wait(cfg), Step(cfg), n, |h| - 1);
    }
    LaterStill(h, Wait(cfg) + (n - 1) * Step(cfg), ContactAt(cfg));
  }

  lemma FillingLegal(cfg: Config)
    requires SkippingPays(cfg)
    ensures Legal(cfg, Filling(cfg)) && Run(cfg, Filling(cfg)) == Filling(cfg)
  {
    var m, n, h := Fillers(cfg), cfg.nonContactMaxPerHour, Filling(cfg);
    BurstCold(m, Wait(cfg), Step(cfg), n);
    FillingFits(cfg);
    FewAreAtMost(Times(h), cfg.maxSendsPerHour, HOUR);
    FewAreAtMost(ColdTimes(h), n, HOUR);
    hide Burst, FloorsKept, AtMost, NotAfter, ColdTimes, Evenly, Times, RunFrom;
    LegalRunsWhole(cfg, h, ContactAt(cfg));
  }

  lemma FewHaveRoom(ts: seq<int>, cap: int, dur: int, now: int)
    requires |ts| < cap
    ensures HasRoom(ts, cap, dur, now)
  {
  }

  lemma RefusedByGlobalCap(cfg: Config, h: seq<Send>, s: Send)
    requires NotAfter(h, s.at) && 0 < cfg.maxSendsPerHour == |h| && h[0].at + HOUR >= s.at
    ensures !Decide(cfg, h, s).allowed
  {
    hide *;
    NotAfterIndexed(h, s.at);
    HasRoomByIndex(Times(h), cfg.maxSendsPerHour, HOUR, s.at);
    AllowedIff(cfg, h, s);
  }

  lemma RefusedByColdCap(cfg: Config, h: seq<Send>, s: Send)
    requires NotAfter(h, s.at) && !s.contact && 0 < cfg.nonContactMaxPerHour == |ColdTimes(h)|
    requires ColdTimes(h)[0] + HOUR >= s.at
    ensures !Decide(cfg, h, s).allowed
  {
    hide *;
    NotAfterCold(h, s.at);
    HasRoomByIndex(ColdTimes(h), cfg.nonContactMaxPerHour, HOUR, s.at);
    AllowedIff(cfg, h, s);
  }

  /** Enough for s to pass: its floor is over, fewer colds than their cap went out, and the global cap has a slot. */
  lemma Admitted(cfg: Config, h: seq<Send>, s: Send)
    requires NotAfter(h, s.at) && (h != [] ==> s.at - h[|h| - 1].at >= Floor(cfg, s.contact))
    requires s.contact || |ColdTimes(h)| < cfg.nonContactMaxPerHour
    requires cfg.maxSendsPerHour > 0 ==>
               |h| < cfg.maxSendsPerHour || (|h| == cfg.maxSendsPerHour && h[0].at + HOUR < s.at)
    ensures Decide(cfg, h, s).allowed
  {
    hide *;
    NotAfterIndexed(h, s.at);
    HasRoomByIndex(Times(h), cfg.maxSendsPerHour, HOUR, s.at);
    if !s.contact {
      FewHaveRoom(ColdTimes(h), cfg.nonContactMaxPerHour, HOUR, s.at);
    }
    AllowedIff(cfg, h, s);
  }

  /** What the filling sends look like from where the last two attempts stand. */
  lemma FillingEnds(cfg: Config)
    requires SkippingPays(cfg)
    ensures var h, cap := Filling(cfg), cfg.nonContactMaxPerHour;
            && h != [] && |h| == Fillers(cfg) + cap && !h[|h| - 1].contact
            && |ColdTimes(h)| == cap && ColdTimes(h)[0] == Wait(cfg)
            && (cfg.minSendInterval <= 0 ==> |h| == cfg.maxSendsPerHour && h[0].at == 0)
  {
    BurstCold(Fillers(cfg), Wait(cfg), Step(cfg), cfg.nonContactMaxPerHour);
    hide ColdTimes, Burst;
    assert ColdTimes(Filling(cfg))[0] == Wait(cfg) + 0 * Step(cfg);
  }

  /** How the last two attempts lie to each other and to the limits. */
  lemma LateGaps(cfg: Config)
    requires SkippingPays(cfg)
    ensures var c, d, cap := LateContact(cfg), LateCold(cfg), cfg.maxSendsPerHour;
            && c.contact && !d.contact && d.at == c.at + Wait(cfg) && c.at < d.at && d.at - c.at >= Floor(cfg, false)
            && 0 < cfg.nonContactMaxPerHour && Floor(cfg, true) == cfg.minSendInterval
            && (cap > 0 ==> cfg.nonContactMaxPerHour < cap)
            && (cfg.minSendInterval > 0 ==> Fillers(cfg) == 0)
            && (cfg.minSendInterval <= 0 ==> cap > 0 && c.at == HOUR)
  {
  }

  lemma LastNotAfter(h: seq<Send>, t: int)
    requires NotAfter(h, t) && h != []
    ensures h[|h| - 1].at <= t
  {
  }

  /** A contact refused by its floor or the global cap, then a cold refused by the full non-contact cap. */
  lemma BothRefused(cfg: Config, h: seq<Send>, c: Send, d: Send)
    requires Run(cfg, h) == h && h != [] && NotAfter(h, c.at) && c.at <= d.at && !d.contact
    requires || c.at - h[|h| - 1].at < Floor(cfg, c.contact)
             || (0 < cfg.maxSendsPerHour == |h| && h[0].at + HOUR >= c.at)
    requires 0 < cfg.nonContactMaxPerHour == |ColdTimes(h)| && ColdTimes(h)[0] + HOUR >= d.at
    ensures Run(cfg, h + [c] + [d]) == h
  {
    hide *;
    if c.at - h[|h| - 1].at < Floor(cfg, c.contact) {
      RefusedByFloor(cfg, h, c);
    } else {
      RefusedByGlobalCap(cfg, h, c);
    }
    LaterStill(h, c.at, d.at);
    RefusedByColdCap(cfg, h, d);
    RunStep(cfg, h, c);
    RunStep(cfg, h + [c], d);
  }

  lemma RefusedByFloor(cfg: Config, h: seq<Send>, s: Send)
    requires h != [] && s.at - h[|h| - 1].at < Floor(cfg, s.contact)
    ensures !Decide(cfg, h, s).allowed
  {
    hide Floor, UntilOldestExpires, Since;
  }

  /** Asking every time gets the filling sends through and then neither of the two that follow. */
  lemma AskingAlwaysLoses(cfg: Config)
    requires SkippingPays(cfg)
    ensures Run(cfg, Tempting(cfg)) == Filling(cfg)
  {
    hide *;
    FillingFits(cfg);
    FillingLegal(cfg);
    FillingEnds(cfg);
    LateGaps(cfg);
    LateTimes(cfg);
    TemptingIs(cfg);
    BothRefused(cfg, Filling(cfg), LateContact(cfg), LateCold(cfg));
  }

  lemma LateTimes(cfg: Config)
    requires SkippingPays(cfg)
    ensures LateContact(cfg).at == ContactAt(cfg)
  {
  }

  /** The limits have room for a contact and then a cold. */
  ghost predicate RoomForBoth(cfg: Config, r: seq<Send>, c: Send, d: Send) {
    && Legal(cfg, r) && NotAfter(r, c.at) && c.at <= d.at && c.contact && !d.contact
    && (r != [] ==> c.at - r[|r| - 1].at >= Floor(cfg, true)) && d.at - c.at >= Floor(cfg, false)
    && |ColdTimes(r)| < cfg.nonContactMaxPerHour
    && (cfg.maxSendsPerHour > 0 ==>
          && |r| < cfg.maxSendsPerHour
          && (|r| + 1 < cfg.maxSendsPerHour || (r + [c])[0].at + HOUR < d.at))
  }

  lemma BothAdmitted(cfg: Config, r: seq<Send>, c: Send, d: Send)
    requires RoomForBoth(cfg, r, c, d)
    ensures Legal(cfg, r + [c] + [d])
  {
    hide Legal, NotAfter, Floor, ColdTimes, Times, Decide;
    Admitted(cfg, r, c);
    AdmitIffLegal(cfg, r, c);
    LaterStill(r, c.at, c.at);
    NotAfterExtend(r, c, d.at);
    TimesExtend(r, c);
    Admitted(cfg, r + [c], d);
    AdmitIffLegal(cfg, r + [c], d);
  }

  lemma FillingLeavesRoom(cfg: Config)
    requires SkippingPays(cfg)
    ensures var h := Filling(cfg); RoomForBoth(cfg, h[..|h| - 1], LateContact(cfg), LateCold(cfg))
  {
    hide SkippingPays, Filling, LateContact, LateCold, ContactAt, Wait, Step, Fillers, Floor, Legal, NotAfter,
         ColdTimes, Times, Run, FloorsKept;
    var h, c, d := Filling(cfg), LateContact(cfg), LateCold(cfg);
    var r, last := h[..|h| - 1], h[|h| - 1];
    FillingFits(cfg);
    FillingLegal(cfg);
    FillingEnds(cfg);
    LateGaps(cfg);
    LateTimes(cfg);
    assert h == r + [last];
    TimesExtend(r, last);
    LegalPrefix(cfg, r, last);
    BeforeLast(h, c.at);
    LaterStill(r, last.at, c.at);
    if r != [] {
      LastNotAfter(r, c.at);
    }
  }

  /** Letting the last filling cold pass keeps within every limit and gets both through. */
  lemma SkippingIsLegal(cfg: Config)
    requires SkippingPays(cfg)
    ensures var h := Filling(cfg); Legal(cfg, h[..|h| - 1] + [LateContact(cfg)] + [LateCold(cfg)])
  {
    hide *;
    FillingLeavesRoom(cfg);
    BothAdmitted(cfg, Filling(cfg)[..|Filling(cfg)| - 1], LateContact(cfg), LateCold(cfg));
  }

  lemma TemptingOrdered(cfg: Config)
    requires SkippingPays(cfg)
    ensures Sorted(Times(Tempting(cfg)))
  {
    var h, c, d := Filling(cfg), LateContact(cfg), LateCold(cfg);
    FillingFits(cfg);
    hide Filling;
    NotAfterExtend(h, c, c.at);
    NotAfterExtend(h + [c], d, d.at);
  }

  lemma {:induction false} SelectAll<T>(xs: seq<T>, keep: seq<bool>)
    requires |keep| == |xs| && forall i :: 0 <= i < |keep| ==> keep[i]
    ensures Select(xs, keep) == xs
  {
    if xs != [] {
      var n := |xs| - 1;
      SelectAll(xs[..n], keep[..n]);
      assert xs == xs[..n] + [xs[n]];
    }
  }

  lemma SelectAllButOne<T>(r: seq<T>, last: T, c: T, d: T)
    ensures Select(r + [last] + [c] + [d], AllButOne(|r| + 1)) == r + [c] + [d]
  {
    var all := seq(|r|, i requires 0 <= i < |r| => true);
    SelectAll(r, all);
    hide Select;
    SelectStep(r, all, last, false);
    assert r + [] == r;
    SelectStep(r + [last], all + [false], c, true);
    SelectStep(r + [last] + [c], all + [false] + [true], d, true);
  }

  lemma BeatenByOne(cfg: Config, r: seq<Send>, last: Send, c: Send, d: Send)
    requires Run(cfg, r + [last] + [c] + [d]) == r + [last] && Legal(cfg, r + [c] + [d])
    requires Sorted(Times(r + [last] + [c] + [d]))
    ensures Beaten(cfg, r + [last] + [c] + [d], AllButOne(|r| + 1))
  {
    hide Sorted, Times, Legal, Run, Select, AllButOne;
    SelectAllButOne(r, last, c, d);
  }

  lemma SkippingWins(cfg: Config)
    requires SkippingPays(cfg)
    ensures Beaten(cfg, Tempting(cfg), AllButOne(|Filling(cfg)|))
  {
    hide *;
    var h := Filling(cfg);
    assert h != [] by {
      FillingEnds(cfg);
    }
    AskingAlwaysLoses(cfg);
    SkippingIsLegal(cfg);
    TemptingOrdered(cfg);
    assert h[..|h| - 1] + [h[|h| - 1]] == h;
    TemptingIs(cfg);
    BeatenByOne(cfg, h[..|h| - 1], h[|h| - 1], LateContact(cfg), LateCold(cfg));
  }

  lemma TemptingIs(cfg: Config)
    requires SkippingPays(cfg)
    ensures Tempting(cfg) == Filling(cfg) + [LateContact(cfg)] + [LateCold(cfg)]
  {
  }

  /**
    Exactly when asking at every opportunity is best for every mix of attempts:
    unless the non-contact cap can fill within the hour and either lies below
    the global cap or, that cap being off, comes with a floor between sends.
   */
  lemma AlwaysBestIff(cfg: Config)
    ensures (forall calls, keep :: !Beaten(cfg, calls, keep)) <==> !SkippingPays(cfg)
  {
    hide SkippingPays, Legal, Run, Filling, Tempting, AllButOne;
    if SkippingPays(cfg) {
      SkippingWins(cfg);
    } else {
      forall calls, keep
        ensures !Beaten(cfg, calls, keep)
      {
        if Beaten(cfg, calls, keep) {
          MixedOptimal(cfg, calls, keep);
        }
      }
    }
  }

  /** The limits the daemon runs with are among those: 15 colds, 90 seconds apart, under a global cap of 30. */
  lemma DefaultLimitsBeaten()
    ensures var cfg := DefaultConfig();
            SkippingPays(cfg) && Beaten(cfg, Tempting(cfg), AllButOne(|Filling(cfg)|))
  {
    SkippingWins(DefaultConfig());
  }
}
