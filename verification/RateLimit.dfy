/** The outbound limiter itself: three slices pruned in place, checked against the full history. */
module RateLimit {
  import opened Sequences
  import opened SendHistory
  import opened SendProofs

  /** Filter buf[..n] in place, keeping in order what is not before cutoff. */
  method PruneBefore(buf: array<int>, n: nat, cutoff: int) returns (k: nat)
    requires n <= buf.Length
    modifies buf
    ensures k <= n
    ensures buf[..k] == Since(old(buf[..n]), cutoff)
    ensures forall j :: n <= j < buf.Length ==> buf[j] == old(buf[j])
  {
    k := 0;
    for i := 0 to n
      invariant k <= i
      invariant buf[..k] == Since(old(buf[..i]), cutoff)
      invariant forall j :: i <= j < buf.Length ==> buf[j] == old(buf[j])
    {
      ghost var before := buf[..k];
      assert old(buf[..i + 1]) == old(buf[..i]) + [old(buf[i])];
      SinceExtend(old(buf[..i]), old(buf[i]), cutoff);
      if buf[i] >= cutoff {
        buf[k] := buf[i];
        k := k + 1;
        assert buf[..k] == before + [old(buf[i])];
      }
    }
  }

  /** Go's append on the slice buf[..n]: in place while there is capacity, else into a larger copy. */
  method Append(buf: array<int>, n: nat, t: int) returns (r: array<int>)
    requires n <= buf.Length
    modifies buf
    ensures n < r.Length && r[..n + 1] == old(buf[..n]) + [t]
    ensures r == buf || fresh(r)
    ensures fresh(r) ==> buf[..] == old(buf[..])
  {
    if n < buf.Length {
      buf[n] := t;
      r := buf;
    } else {
      r := new int[2 * n + 1];
      for i := 0 to n
        invariant r[..i] == buf[..i]
        invariant buf[..] == old(buf[..])
      {
        r[i] := buf[i];
      }
      r[n] := t;
      assert r[..n] == old(buf[..n]);
    }
    assert r[..n + 1] == r[..n] + [r[n]];
  }

  /** How long until the oldest entry of buf[..n] leaves a trailing window of length dur. */
  method TimeToFree(buf: array<int>, n: nat, now: int, dur: int) returns (r: int)
    requires n <= buf.Length
    ensures r == UntilOldestExpires(buf[..n], now, dur)
  {
    if n == 0 {
      return 0;
    }
    r := buf[0] + dur - now;
    if r < 0 {
      r := 0;
    }
  }

  /** A slice of times: a backing array, of which the first count entries are live. */
  class Window {
    var buf: array<int>
    var count: nat
    ghost var pushed: seq<int>   // every time ever pushed, pruned or not
    ghost var cutoff: int        // where the slice was last pruned

    ghost predicate Valid()
      reads this, buf
    {
      count <= buf.Length && buf[..count] == Since(pushed, cutoff)
    }

    constructor (ghost cutoff: int)
      ensures Valid() && fresh(buf) && pushed == [] && this.cutoff == cutoff
    {
      buf, count := new int[0], 0;
      pushed := [];
      this.cutoff := cutoff;
    }

    method Prune(to: int)
      requires Valid() && cutoff <= to
      modifies this`count, this`cutoff, buf
      ensures Valid() && cutoff == to
    {
      SinceSince(pushed, cutoff, to);
      count := PruneBefore(buf, count, to);
      cutoff := to;
    }

    method Push(t: int)
      requires Valid() && cutoff <= t
      modifies this`buf, this`count, this`pushed, buf
      ensures Valid() && pushed == old(pushed) + [t]
      ensures buf == old(buf) || fresh(buf)
    {
      SinceExtend(pushed, t, cutoff);
      buf := Append(buf, count, t);
      count := count + 1;
      pushed := pushed + [t];
    }

    /** Whether the cap leaves no room and, if so, when the oldest entry expires. */
    method Full(cap: int, now: int, ghost dur: int) returns (full: bool)
      requires Valid() && cutoff == now - dur
      ensures full == !HasRoom(pushed, cap, dur, now)
    {
      assert count == |buf[..count]|;
      full := cap > 0 && count >= cap;
    }

    method Expiry(now: int, dur: int) returns (r: int)
      requires Valid() && cutoff == now - dur
      ensures r == UntilOldestExpires(Since(pushed, now - dur), now, dur)
    {
      r := TimeToFree(buf, count, now, dur);
    }
  }

  class Limiter {
    const cfg: Config
    const sends: Window
    const nonContactSends: Window
    const usyncs: Window
    var lastSend: Option<int>

    ghost var calls: seq<Send>         // every send attempt, admitted or not
    ghost var sendLog: seq<Send>       // every send admitted
    ghost var usyncCalls: seq<int>     // every lookup attempt
    ghost var latest: int              // the latest clock reading

    ghost function Buffers(): set<object>
      reads sends, nonContactSends, usyncs
    {
      {sends.buf, nonContactSends.buf, usyncs.buf}
    }

    /** The slices say what the history says, as far back as each was last pruned. */
    ghost predicate Windows()
      reads this, sends, nonContactSends, usyncs, Buffers()
    {
      && sends != nonContactSends && sends != usyncs && nonContactSends != usyncs
      && sends.buf != nonContactSends.buf && sends.buf != usyncs.buf && nonContactSends.buf != usyncs.buf
      && sends.Valid() && nonContactSends.Valid() && usyncs.Valid()
      && sends.pushed == Times(sendLog) && nonContactSends.pushed == ColdTimes(sendLog)
      && sends.cutoff == nonContactSends.cutoff <= latest - HOUR && usyncs.cutoff <= latest - MINUTE
      && lastSend == (if sendLog == [] then None else Some(sendLog[|sendLog| - 1].at))
    }

    /** The history is the run of the attempts so far, which came in clock order. */
    ghost predicate Valid()
      reads this, sends, nonContactSends, usyncs, Buffers()
    {
      && Windows()
      && sendLog == Run(cfg, calls) && InOrder(Times(calls), latest)
      && usyncs.pushed == RunUsync(cfg, usyncCalls) && InOrder(usyncCalls, latest)
    }

    /** A limiter with nothing sent; start is any instant not after its first clock reading. */
    constructor (cfg: Config, ghost start: int)
      ensures Valid() && fresh(sends) && fresh(nonContactSends) && fresh(usyncs) && fresh(Buffers())
      ensures this.cfg == cfg && calls == [] && usyncCalls == [] && latest == start
    {
      this.cfg := cfg;
      sends := new Window(start - HOUR);
      nonContactSends := new Window(start - HOUR);
      usyncs := new Window(start - MINUTE);
      lastSend := None;
      calls, sendLog, usyncCalls, latest := [], [], [], start;
    }

    /**
      The decision is the one the whole history calls for, however much of it
      has been pruned; an admitted send is the only thing that leaves a mark,
      and lookups are untouched.
     */
    method AllowSend(isContact: bool, now: int) returns (d: Decision)
      requires Valid() && latest <= now
      modifies this`lastSend, this`calls, this`sendLog, this`latest
      modifies sends, nonContactSends, sends.buf, nonContactSends.buf
      ensures Valid() && latest == now && calls == old(calls) + [Send(now, isContact)]
      ensures fresh(Buffers() - old(Buffers()))
      ensures d == Decide(cfg, old(sendLog), Send(now, isContact))
      ensures sendLog == if d.allowed then old(sendLog) + [Send(now, isContact)] else old(sendLog)
      ensures sends.cutoff == nonContactSends.cutoff == now - HOUR
    {
      hide Since, Times, ColdTimes, Run, RunFrom, Decide;
      SendRunStep(cfg, calls, latest, Send(now, isContact));
      latest, calls := now, calls + [Send(now, isContact)];
      d := SendStep(isContact, now);
    }

    method SendStep(isContact: bool, now: int) returns (d: Decision)
      requires Windows() && latest == now
      modifies this`lastSend, this`sendLog, sends, nonContactSends, sends.buf, nonContactSends.buf
      ensures Windows()
      ensures fresh(Buffers() - old(Buffers()))
      ensures d == Decide(cfg, old(sendLog), Send(now, isContact))
      ensures sendLog == if d.allowed then old(sendLog) + [Send(now, isContact)] else old(sendLog)
      ensures sends.cutoff == nonContactSends.cutoff == now - HOUR
    {
      hide Since, Times, ColdTimes;
      sends.Prune(now - HOUR);
      nonContactSends.Prune(now - HOUR);
      d := Check(isContact, now);
      if d.allowed {
        Record(isContact, now);
      }
    }

    method Check(isContact: bool, now: int) returns (d: Decision)
      requires Windows() && sends.cutoff == now - HOUR
      ensures d == Decide(cfg, sendLog, Send(now, isContact))
    {
      var minInterval := cfg.minSendInterval;
      if !isContact && cfg.nonContactMinInterval > minInterval {
        minInterval := cfg.nonContactMinInterval;
      }
      if lastSend.Some? {
        var elapsed := now - lastSend.value;
        if elapsed < minInterval {
          return Decision(false, minInterval - elapsed, IntervalReason(isContact));
        }
      }
      var full := sends.Full(cfg.maxSendsPerHour, now, HOUR);
      if full {
        var r := sends.Expiry(now, HOUR);
        return Decision(false, r, HourlyCap);
      }
      full := nonContactSends.Full(cfg.nonContactMaxPerHour, now, HOUR);
      if !isContact && full {
        var r := nonContactSends.Expiry(now, HOUR);
        return Decision(false, r, NonContactCap);
      }
      d := ADMITTED;
    }

    method Record(isContact: bool, now: int)
      requires Windows() && sends.cutoff <= now
      modifies this`lastSend, this`sendLog, sends, nonContactSends, sends.buf, nonContactSends.buf
      ensures Windows() && sends.cutoff == old(sends.cutoff)
      ensures sendLog == old(sendLog) + [Send(now, isContact)]
      ensures fresh(Buffers() - old(Buffers()))
    {
      hide Since, Times, ColdTimes;
      TimesExtend(sendLog, Send(now, isContact));
      sends.Push(now);
      if !isContact {
        nonContactSends.Push(now);
      }
      lastSend := Some(now);
      sendLog := sendLog + [Send(now, isContact)];
    }

    /** The same for lookups, which share nothing with sends. */
    method AllowUsync(now: int) returns (d: Decision)
      requires Valid() && latest <= now
      modifies this`latest, this`usyncCalls, usyncs, usyncs.buf
      ensures Valid() && latest == now && usyncCalls == old(usyncCalls) + [now]
      ensures fresh(Buffers() - old(Buffers()))
      ensures d == DecideUsync(cfg, old(usyncs.pushed), now)
      ensures usyncs.pushed == if d.allowed then old(usyncs.pushed) + [now] else old(usyncs.pushed)
      ensures usyncs.cutoff == now - MINUTE
    {
      hide Since, Times, ColdTimes, RunUsync, DecideUsync;
      LookupStep(cfg, usyncCalls, now);
      InOrderExtend(usyncCalls, latest, now);
      latest, usyncCalls := now, usyncCalls + [now];
      d := UsyncStep(now);
    }

    method UsyncStep(now: int) returns (d: Decision)
      requires Windows() && latest == now
      modifies usyncs, usyncs.buf
      ensures Windows()
      ensures fresh(Buffers() - old(Buffers()))
      ensures d == DecideUsync(cfg, old(usyncs.pushed), now)
      ensures usyncs.pushed == if d.allowed then old(usyncs.pushed) + [now] else old(usyncs.pushed)
      ensures usyncs.cutoff == now - MINUTE
    {
      hide Since, Times, ColdTimes;
      usyncs.Prune(now - MINUTE);
      var full := usyncs.Full(cfg.maxUsyncPerMinute, now, MINUTE);
      if full {
        var r := usyncs.Expiry(now, MINUTE);
        d := Decision(false, r, UsyncBurst);
      } else {
        usyncs.Push(now);
        d := ADMITTED;
      }
    }

    /** Whatever calls a limiter has seen, what it has let through is within every limit. */
    lemma LimitsKept()
      requires Valid()
      ensures Legal(cfg, sendLog) && AtMost(usyncs.pushed, cfg.maxUsyncPerMinute, MINUTE)
    {
      InOrderSorted(Times(calls), latest);
      InOrderSorted(usyncCalls, latest);
      WindowSafety(cfg, calls);
      UsyncSafety(cfg, usyncCalls);
    }
  }

  /** Clock readings that never went back, the last of them not after t. */
  ghost predicate InOrder(ts: seq<int>, t: int) {
    ts == [] || (ts[|ts| - 1] <= t && InOrder(ts[..|ts| - 1], ts[|ts| - 1]))
  }

  lemma InOrderExtend(ts: seq<int>, t: int, now: int)
    requires InOrder(ts, t) && t <= now
    ensures InOrder(ts, now) && InOrder(ts + [now], now)
  {
    assert (ts + [now])[..|ts|] == ts;
  }

  lemma {:induction false} InOrderSorted(ts: seq<int>, t: int)
    requires InOrder(ts, t)
    ensures Sorted(ts) && forall i :: 0 <= i < |ts| ==> ts[i] <= t
  {
    if ts != [] {
      InOrderSorted(ts[..|ts| - 1], ts[|ts| - 1]);
    }
  }

  lemma SendRunStep(cfg: Config, calls: seq<Send>, latest: int, s: Send)
    requires InOrder(Times(calls), latest) && latest <= s.at
    ensures InOrder(Times(calls + [s]), s.at)
    ensures Run(cfg, calls + [s])
         == if Decide(cfg, Run(cfg, calls), s).allowed then Run(cfg, calls) + [s] else Run(cfg, calls)
  {
    RunStep(cfg, calls, s);
    TimesExtend(calls, s);
    InOrderExtend(Times(calls), latest, s.at);
  }
}
