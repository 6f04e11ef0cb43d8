/**
  What the outbound limiter promises, said about the whole history of admitted
  sends and never about the pruned windows the limiter keeps in memory.
  Times are nanoseconds on a clock that does not run backwards.
 */
module SendHistory {
  import opened Sequences

  const SECOND: int := 1_000_000_000
  const MINUTE: int := 60 * SECOND
  const HOUR: int := 60 * MINUTE

  datatype Config = Config(
    minSendInterval: int,
    maxSendsPerHour: int,
    nonContactMinInterval: int,
    nonContactMaxPerHour: int,
    maxUsyncPerMinute: int)

  function DefaultConfig(): Config {
    Config(45 * SECOND, 30, 90 * SECOND, 15, 3)
  }

  datatype Send = Send(at: int, contact: bool)

  datatype Reason = NoReason | IntervalReason(contact: bool) | HourlyCap | NonContactCap | UsyncBurst

  datatype Decision = Decision(allowed: bool, retryAfter: int, reason: Reason)

  const ADMITTED := Decision(true, 0, NoReason)

  function Times(h: seq<Send>): (ts: seq<int>)
    ensures |ts| == |h|
  {
    seq(|h|, i requires 0 <= i < |h| => h[i].at)
  }

  /** The times of the sends to non-contacts. */
  function ColdTimes(h: seq<Send>): seq<int> {
    if h == [] then []
    else
      var n := |h| - 1;
      ColdTimes(h[..n]) + (if h[n].contact then [] else [h[n].at])
  }

  /** The times not before cutoff, in order. */
  function Since(ts: seq<int>, cutoff: int): (r: seq<int>)
    ensures |r| <= |ts|
  {
    if ts == [] then []
    else
      var n := |ts| - 1;
      Since(ts[..n], cutoff) + (if ts[n] >= cutoff then [ts[n]] else [])
  }

  /** How many times fall in the closed interval [lo, hi]. */
  function CountIn(ts: seq<int>, lo: int, hi: int): nat {
    if ts == [] then 0
    else
      var n := |ts| - 1;
      CountIn(ts[..n], lo, hi) + (if lo <= ts[n] <= hi then 1 else 0)
  }

  /** The floor before a send: the stricter of the two minimums that apply to it. */
  function Floor(cfg: Config, contact: bool): int {
    if !contact && cfg.nonContactMinInterval > cfg.minSendInterval
    then cfg.nonContactMinInterval
    else cfg.minSendInterval
  }

  function UntilOldestExpires(window: seq<int>, now: int, dur: int): int {
    if window == [] || window[0] + dur < now then 0 else window[0] + dur - now
  }

  /** A cap of zero or less is off. Otherwise the closed trailing window must have room. */
  predicate HasRoom(ts: seq<int>, cap: int, dur: int, now: int) {
    cap <= 0 || |Since(ts, now - dur)| < cap
  }

  predicate FloorElapsed(cfg: Config, h: seq<Send>, s: Send) {
    h == [] || s.at - h[|h| - 1].at >= Floor(cfg, s.contact)
  }

  /** The decision on s after exactly the sends in h were admitted. */
  function Decide(cfg: Config, h: seq<Send>, s: Send): Decision {
    if !FloorElapsed(cfg, h, s) then
      Decision(false, Floor(cfg, s.contact) - (s.at - h[|h| - 1].at), IntervalReason(s.contact))
    else if !HasRoom(Times(h), cfg.maxSendsPerHour, HOUR, s.at) then
      Decision(false, UntilOldestExpires(Since(Times(h), s.at - HOUR), s.at, HOUR), HourlyCap)
    else if !s.contact && !HasRoom(ColdTimes(h), cfg.nonContactMaxPerHour, HOUR, s.at) then
      Decision(false, UntilOldestExpires(Since(ColdTimes(h), s.at - HOUR), s.at, HOUR), NonContactCap)
    else ADMITTED
  }

  /** The decision on a lookup at now after exactly the lookups in h were admitted. */
  function DecideUsync(cfg: Config, h: seq<int>, now: int): Decision {
    if HasRoom(h, cfg.maxUsyncPerMinute, MINUTE, now) then ADMITTED
    else Decision(false, UntilOldestExpires(Since(h, now - MINUTE), now, MINUTE), UsyncBurst)
  }

  /** The sends admitted out of a run of attempts that starts after history h. */
  function RunFrom(cfg: Config, h: seq<Send>, calls: seq<Send>): (r: seq<Send>) {
    if calls == [] then h
    else
      var n := |calls| - 1;
      var h' := RunFrom(cfg, h, calls[..n]);
      if Decide(cfg, h', calls[n]).allowed then h' + [calls[n]] else h'
  }

  function Run(cfg: Config, calls: seq<Send>): seq<Send> {
    RunFrom(cfg, [], calls)
  }

  /** The lookups admitted out of a run of attempts that starts after history h. */
  function UsyncFrom(cfg: Config, h: seq<int>, calls: seq<int>): (r: seq<int>) {
    if calls == [] then h
    else
      var n := |calls| - 1;
      var h' := UsyncFrom(cfg, h, calls[..n]);
      if DecideUsync(cfg, h', calls[n]).allowed then h' + [calls[n]] else h'
  }

  function RunUsync(cfg: Config, calls: seq<int>): seq<int> {
    UsyncFrom(cfg, [], calls)
  }

  // ---- what a history must look like for the account to be safe ----

  /** Every closed window no longer than dur, wherever it starts, holds at most cap times; off when cap <= 0. */
  ghost predicate AtMost(ts: seq<int>, cap: int, dur: int) {
    cap > 0 ==> forall a, b :: b <= a + dur ==> CountIn(ts, a, b) <= cap
  }

  /** Sends follow one another by the minimum interval, and a send to a non-contact by its own as well. */
  ghost predicate FloorsKept(cfg: Config, h: seq<Send>) {
    forall i :: 0 < i < |h| ==>
      && h[i].at - h[i - 1].at >= cfg.minSendInterval
      && (!h[i].contact ==> h[i].at - h[i - 1].at >= cfg.nonContactMinInterval)
  }

  ghost predicate Legal(cfg: Config, h: seq<Send>) {
    && FloorsKept(cfg, h)
    && AtMost(Times(h), cfg.maxSendsPerHour, HOUR)
    && AtMost(ColdTimes(h), cfg.nonContactMaxPerHour, HOUR)
  }
}
