/**
  What the outbound limiter guarantees an observer, in the configuration's own
  fields, with sends counted one by one and an hour as 3_600_000_000_000 ns.
 */
module SendLimits {
  import opened Sequences
  import opened SendHistory
  import opened SendProofs

  /** How many sends fall in the closed interval [lo, hi]. */
  function SendsIn(h: seq<Send>, lo: int, hi: int): nat {
    if h == [] then 0
    else
      var n := |h| - 1;
      SendsIn(h[..n], lo, hi) + (if lo <= h[n].at <= hi then 1 else 0)
  }

  /** How many of them go to non-contacts. */
  function NonContactsIn(h: seq<Send>, lo: int, hi: int): nat {
    if h == [] then 0
    else
      var n := |h| - 1;
      NonContactsIn(h[..n], lo, hi) + (if !h[n].contact && lo <= h[n].at <= hi then 1 else 0)
  }

  lemma {:induction false} CountsAgree(h: seq<Send>, lo: int, hi: int)
    ensures CountIn(Times(h), lo, hi) == SendsIn(h, lo, hi)
    ensures CountIn(ColdTimes(h), lo, hi) == NonContactsIn(h, lo, hi)
  {
    if h != [] {
      var n := |h| - 1;
      CountsAgree(h[..n], lo, hi);
      assert h == h[..n] + [h[n]];
      TimesExtend(h[..n], h[n]);
      CountExtend(Times(h[..n]), h[n].at, lo, hi);
      CountExtend(ColdTimes(h[..n]), h[n].at, lo, hi);
    }
  }

  /**
    On every run each admitted send follows the one before it by at least the
    minimum interval, and a send to a non-contact by the non-contact one as well;
    no closed hour holds more sends, or more sends to non-contacts, than its cap.
   */
  lemma LimitsOnEveryRun(cfg: Config, calls: seq<Send>, lo: int, hi: int)
    requires Sorted(Times(calls)) && hi <= lo + 3_600_000_000_000
    ensures var sent := Run(cfg, calls);
            && (forall i :: 0 < i < |sent| ==>
                  && sent[i].at - sent[i - 1].at >= cfg.minSendInterval
                  && (!sent[i].contact ==> sent[i].at - sent[i - 1].at >= cfg.nonContactMinInterval))
            && (cfg.maxSendsPerHour > 0 ==> SendsIn(sent, lo, hi) <= cfg.maxSendsPerHour)
            && (cfg.nonContactMaxPerHour > 0 ==> NonContactsIn(sent, lo, hi) <= cfg.nonContactMaxPerHour)
  {
    WindowSafety(cfg, calls);
    CountsAgree(Run(cfg, calls), lo, hi);
    hide Run, CountIn, SendsIn, NonContactsIn, Times, ColdTimes;
  }

  /** One of the two minimum intervals that apply to s is not over. */
  predicate TooSoon(cfg: Config, h: seq<Send>, s: Send) {
    h != [] &&
    (s.at - h[|h| - 1].at < cfg.minSendInterval
     || (!s.contact && s.at - h[|h| - 1].at < cfg.nonContactMinInterval))
  }

  predicate HourFull(cfg: Config, h: seq<Send>, at: int) {
    0 < cfg.maxSendsPerHour <= SendsIn(h, at - 3_600_000_000_000, at)
  }

  predicate NonContactHourFull(cfg: Config, h: seq<Send>, at: int) {
    0 < cfg.nonContactMaxPerHour <= NonContactsIn(h, at - 3_600_000_000_000, at)
  }

  lemma HourFullIff(cfg: Config, h: seq<Send>, at: int)
    requires NotAfter(h, at)
    ensures HasRoom(Times(h), cfg.maxSendsPerHour, HOUR, at) <==> !HourFull(cfg, h, at)
    ensures HasRoom(ColdTimes(h), cfg.nonContactMaxPerHour, HOUR, at) <==> !NonContactHourFull(cfg, h, at)
  {
    var lo := at - HOUR;
    NotAfterIndexed(h, at);
    NotAfterBound(h, at);
    NotAfterCold(h, at);
    CountsAgree(h, lo, at);
    SinceCounts(Times(h), lo, at);
    SinceCounts(ColdTimes(h), lo, at);
    hide Since, Times, ColdTimes, CountIn, SendsIn, NonContactsIn, NotAfter;
  }

  lemma TooSoonIff(cfg: Config, h: seq<Send>, s: Send)
    ensures FloorElapsed(cfg, h, s) <==> !TooSoon(cfg, h, s)
  {
    if h != [] {
      FloorIsBoth(cfg, s.contact, s.at - h[|h| - 1].at);
    }
    hide Floor;
  }

  lemma ReasonOf(cfg: Config, h: seq<Send>, s: Send)
    ensures var d := Decide(cfg, h, s);
            && d.reason == (if !FloorElapsed(cfg, h, s) then IntervalReason(s.contact)
                            else if !HasRoom(Times(h), cfg.maxSendsPerHour, HOUR, s.at) then HourlyCap
                            else if !s.contact && !HasRoom(ColdTimes(h), cfg.nonContactMaxPerHour, HOUR, s.at)
                            then NonContactCap
                            else NoReason)
            && (d.allowed <==> d.reason == NoReason) && (d.allowed ==> d.retryAfter == 0)
  {
    hide HasRoom, Times, ColdTimes, Floor, Since, UntilOldestExpires;
  }

  /** Why a call is denied: the interval, else the hour, else the non-contact hour; and when none applies it is not. */
  lemma DenialSaysWhy(cfg: Config, h: seq<Send>, s: Send)
    requires NotAfter(h, s.at)
    ensures var d := Decide(cfg, h, s);
            && d.reason == (if TooSoon(cfg, h, s) then IntervalReason(s.contact)
                            else if HourFull(cfg, h, s.at) then HourlyCap
                            else if !s.contact && NonContactHourFull(cfg, h, s.at) then NonContactCap
                            else NoReason)
            && (d.allowed <==> d.reason == NoReason) && (d.allowed ==> d.retryAfter == 0)
  {
    hide *;
    HourFullIff(cfg, h, s.at);
    TooSoonIff(cfg, h, s);
    ReasonOf(cfg, h, s);
  }

  /** After an interval denial the advertised wait ends exactly when both minimums that apply are over. */
  lemma IntervalWaitIsExact(cfg: Config, h: seq<Send>, s: Send, later: int)
    requires TooSoon(cfg, h, s)
    ensures later >= s.at + Decide(cfg, h, s).retryAfter <==> !TooSoon(cfg, h, Send(later, s.contact))
  {
    FloorIsBoth(cfg, s.contact, s.at - h[|h| - 1].at);
    FloorIsBoth(cfg, s.contact, later - h[|h| - 1].at);
    hide Floor;
  }

  /** A lookup is denied exactly when the closed minute that ends with it already holds the cap. */
  lemma LookupDenialSaysWhy(cfg: Config, h: seq<int>, now: int)
    requires Sorted(h) && forall i :: 0 <= i < |h| ==> h[i] <= now
    ensures var d, full := DecideUsync(cfg, h, now), 0 < cfg.maxUsyncPerMinute <= CountIn(h, now - 60_000_000_000, now);
            d.allowed == !full && d.reason == (if full then UsyncBurst else NoReason)
  {
    SinceCounts(h, now - MINUTE, now);
  }

  // ------------------------------------------------------------------- defaults

  /** A non-contact send lies the non-contact minimum behind the non-contact send before it. */
  lemma {:induction false} NonContactGaps(cfg: Config, h: seq<Send>)
    requires FloorsKept(cfg, h) && Sorted(Times(h))
    ensures forall i :: 0 < i < |ColdTimes(h)| ==> ColdTimes(h)[i] - ColdTimes(h)[i - 1] >= cfg.nonContactMinInterval
  {
    if h != [] {
      var n := |h| - 1;
      TimesPrefix(h, n);
      SortedPrefix(Times(h), n);
      NonContactGaps(cfg, h[..n]);
      ColdTimesOrdered(h[..n]);
    }
  }

  /** So as many of them as fall in a span fit into it one minimum apart. */
  lemma NonContactsFit(cfg: Config, calls: seq<Send>, lo: int, span: nat)
    requires Sorted(Times(calls)) && cfg.nonContactMinInterval > 0
    ensures Fits(NonContactsIn(Run(cfg, calls), lo, lo + span), cfg.nonContactMinInterval, span)
  {
    hide *;
    var h := Run(cfg, calls);
    WindowSafety(cfg, calls);
    LegalFloors(cfg, h);
    NonContactGaps(cfg, h);
    ColdTimesOrdered(h);
    CountsAgree(h, lo, lo + span);
    SpacedCount(ColdTimes(h), cfg.nonContactMinInterval, lo, lo + span);
  }

  lemma LegalFloors(cfg: Config, h: seq<Send>)
    requires Legal(cfg, h)
    ensures FloorsKept(cfg, h)
  {
  }

  /** Under the default limits five minutes never hold more than 7 sends, nor more than 4 to non-contacts. */
  lemma DefaultFiveMinutes(calls: seq<Send>, lo: int)
    requires Sorted(Times(calls))
    ensures SendsIn(Run(DefaultConfig(), calls), lo, lo + 300_000_000_000) <= 7
    ensures NonContactsIn(Run(DefaultConfig(), calls), lo, lo + 300_000_000_000) <= 4
  {
    var cfg := DefaultConfig();
    assert cfg.nonContactMinInterval == 90_000_000_000 && 5 * MINUTE == 300_000_000_000;
    hide *;
    DefaultBoundsFiveMinutes(calls, lo);
    CountsAgree(Run(cfg, calls), lo, lo + 300_000_000_000);
    NonContactsFit(cfg, calls, lo, 300_000_000_000);
    FourFit(NonContactsIn(Run(cfg, calls), lo, lo + 300_000_000_000));
  }

  lemma FourFit(count: nat)
    requires Fits(count, 90_000_000_000, 300_000_000_000)
    ensures count <= 4
  {
  }

  /** And no hour more than 30 sends, 15 of them to non-contacts; no minute more than 3 lookups. */
  lemma DefaultCaps(calls: seq<Send>, lookups: seq<int>, lo: int)
    requires Sorted(Times(calls)) && Sorted(lookups)
    ensures SendsIn(Run(DefaultConfig(), calls), lo, lo + 3_600_000_000_000) <= 30
    ensures NonContactsIn(Run(DefaultConfig(), calls), lo, lo + 3_600_000_000_000) <= 15
    ensures CountIn(RunUsync(DefaultConfig(), lookups), lo, lo + 60_000_000_000) <= 3
  {
    LimitsOnEveryRun(DefaultConfig(), calls, lo, lo + 3_600_000_000_000);
    UsyncSafety(DefaultConfig(), lookups);
    hide Run, RunUsync, CountIn, SendsIn, NonContactsIn;
  }
}
