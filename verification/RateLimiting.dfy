/** The daemon's per-address rate limiter. Time is a number of nanoseconds. */
module RateLimiting {
  import opened Machine

  type Ip = nat

  const SYN_RATE_LIMIT: u32 := 5
  const CMD_RATE_LIMIT: u32 := 30
  const WINDOW: nat := 60_000_000_000

  /** Per address: when its window started and how many requests it has made in it. */
  type Table = map<Ip, (nat, u32)>

  function CheckStep(t: Table, ip: Ip, now: nat, limit: u32): (Table, bool) {
    var entry := if ip in t then t[ip] else (now, 0);
    if now - entry.0 > WINDOW then (t[ip := (now, 1)], true)
    else (t[ip := (entry.0, WrapAdd(entry.1, 1))], WrapAdd(entry.1, 1) <= limit)
  }

  function GcStep(t: Table, now: nat): Table {
    map ip | ip in t && now - t[ip].0 < 2 * WINDOW :: t[ip]
  }

  class RateLimiter {
    var synCounts: Table
    var cmdCounts: Table

    constructor ()
      ensures synCounts == map[] && cmdCounts == map[]
    {
      synCounts, cmdCounts := map[], map[];
    }

    method CheckSyn(ip: Ip, now: nat) returns (allowed: bool)
      modifies this
      ensures (synCounts, allowed) == CheckStep(old(synCounts), ip, now, 5)
      ensures cmdCounts == old(cmdCounts)
    {
      var entry: (nat, u32) := if ip in synCounts then synCounts[ip] else (now, 0);
      if now - entry.0 > WINDOW {
        synCounts := synCounts[ip := (now, 1)];
        return true;
      }
      entry := (entry.0, WrapAdd(entry.1, 1));
      synCounts := synCounts[ip := entry];
      allowed := entry.1 <= SYN_RATE_LIMIT;
    }

    method CheckCmd(ip: Ip, now: nat) returns (allowed: bool)
      modifies this
      ensures (cmdCounts, allowed) == CheckStep(old(cmdCounts), ip, now, 30)
      ensures synCounts == old(synCounts)
    {
      var entry: (nat, u32) := if ip in cmdCounts then cmdCounts[ip] else (now, 0);
      if now - entry.0 > WINDOW {
        cmdCounts := cmdCounts[ip := (now, 1)];
        return true;
      }
      entry := (entry.0, WrapAdd(entry.1, 1));
      cmdCounts := cmdCounts[ip := entry];
      allowed := entry.1 <= CMD_RATE_LIMIT;
    }

    method Gc(now: nat)
      modifies this
      ensures synCounts == GcStep(old(synCounts), now) && cmdCounts == GcStep(old(cmdCounts), now)
    {
      synCounts := map ip | ip in synCounts && now - synCounts[ip].0 < 2 * WINDOW :: synCounts[ip];
      cmdCounts := map ip | ip in cmdCounts && now - cmdCounts[ip].0 < 2 * WINDOW :: cmdCounts[ip];
    }
  }

  // ---- runs of one of the two tables ----

  datatype Event = Check(ip: Ip, now: nat) | Gc(now: nat)

  function Run(limit: u32, events: seq<Event>): Table {
    if events == [] then map[]
    else
      var t := Run(limit, events[..|events| - 1]);
      match events[|events| - 1]
      case Check(ip, now) => CheckStep(t, ip, now, limit).0
      case Gc(now) => GcStep(t, now)
  }

  /** The answer to the last event, a check, after the ones before it. */
  function Allowed(limit: u32, before: seq<Event>, last: Event): bool {
    last.Check? && CheckStep(Run(limit, before), last.ip, last.now, limit).1
  }

  ghost predicate InTime(events: seq<Event>) {
    forall i, j :: 0 <= i < j < |events| ==> events[i].now <= events[j].now
  }

  /** How many requests of `ip` were allowed between `from` and `from + WINDOW`, both included. */
  function Accepted(limit: u32, events: seq<Event>, ip: Ip, from: nat): nat {
    if events == [] then 0
    else
      var before, last := events[..|events| - 1], events[|events| - 1];
      Accepted(limit, before, ip, from)
      + if last.Check? && last.ip == ip && from <= last.now <= from + WINDOW && Allowed(limit, before, last)
        then 1 else 0
  }

  /** How many requests of `ip` were made between `from` and `from + WINDOW`, allowed or not. */
  function Requests(events: seq<Event>, ip: Ip, from: nat): nat {
    if events == [] then 0
    else
      var before, last := events[..|events| - 1], events[|events| - 1];
      Requests(before, ip, from) + if last.Check? && last.ip == ip && from <= last.now <= from + WINDOW then 1 else 0
  }

  /** In no 60 seconds does `ip` make more than `most` requests. */
  ghost predicate AtMost(events: seq<Event>, ip: Ip, most: nat) {
    forall from: nat :: Requests(events, ip, from) <= most
  }

  // ---- the counter without its 32-bit wrap ----

  type RawTable = map<Ip, (nat, nat)>

  function RawStep(t: RawTable, ip: Ip, now: nat): RawTable {
    if ip in t && now - t[ip].0 <= WINDOW then t[ip := (t[ip].0, t[ip].1 + 1)] else t[ip := (now, 1)]
  }

  function RawGc(t: RawTable, now: nat): RawTable {
    map ip | ip in t && now - t[ip].0 < 2 * WINDOW :: t[ip]
  }

  function RawRun(events: seq<Event>): RawTable {
    if events == [] then map[]
    else
      var t := RawRun(events[..|events| - 1]);
      match events[|events| - 1]
      case Check(ip, now) => RawStep(t, ip, now)
      case Gc(now) => RawGc(t, now)
  }

  ghost predicate Wraps(t: Table, raw: RawTable) {
    forall ip :: (ip in t <==> ip in raw) && (ip in t ==> t[ip].0 == raw[ip].0 && t[ip].1 == raw[ip].1 % WORD)
  }

  lemma CheckWraps(t: Table, raw: RawTable, ip: Ip, now: nat, limit: u32)
    requires Wraps(t, raw)
    ensures Wraps(CheckStep(t, ip, now, limit).0, RawStep(raw, ip, now))
  {
    hide WrapAdd;
    var c := if ip in raw then raw[ip].1 else 0;
    WrapCount(c);
    assert WrapAdd(if ip in t then t[ip].1 else 0, 1) == (c + 1) % WORD;
    var after, raw' := CheckStep(t, ip, now, limit).0, RawStep(raw, ip, now);
    forall who
      ensures (who in after <==> who in raw')
              && (who in after ==> after[who].0 == raw'[who].0 && after[who].1 == raw'[who].1 % WORD)
    {
      assert (who in t <==> who in raw) && (ip in t <==> ip in raw);
    }
  }

  lemma {:induction false} RunWraps(limit: u32, events: seq<Event>)
    ensures Wraps(Run(limit, events), RawRun(events))
  {
    if events != [] {
      var before, last := events[..|events| - 1], events[|events| - 1];
      RunWraps(limit, before);
      if last.Check? {
        hide Wraps, CheckStep, RawStep;
        CheckWraps(Run(limit, before), RawRun(before), last.ip, last.now, limit);
      }
    }
  }

  /** How many of the first `c` requests of a window get through: `limit`, and more once the counter has wrapped. */
  function Through(limit: u32, c: nat): nat {
    Min(c, limit) + if c >= WORD then c - WORD + 1 else 0
  }

  /** The most that `r` requests, at the end of a window that began earlier, can get through. */
  function Tail(limit: u32, r: nat): nat
    requires limit >= 1
  {
    Min(r, if r + 2 > WORD then r + limit + 1 - WORD else limit - 1)
  }

  /** How many of the last `q` of the first `c` requests get through. */
  function LastThrough(limit: u32, c: nat, q: nat): int
    requires q <= c
  {
    Through(limit, c) - Through(limit, c - q)
  }

  /** The window of `ip` began before `from`; at most `r` of its `c` requests came since. */
  ghost predicate Early(limit: u32, c: nat, r: nat, accepted: nat) {
    exists q: nat :: q <= r && q < c && accepted <= LastThrough(limit, c, q)
  }

  /** It began since, after up to `r - c` requests in an earlier one. */
  ghost predicate Late(limit: u32, c: nat, r: nat, accepted: nat)
    requires limit >= 1
  {
    exists q: nat :: q + c <= r && accepted <= Tail(limit, q) + Through(limit, c)
  }

  /** What bounds the accepted count while time has not passed `from + WINDOW`. */
  ghost predicate Bounded(limit: u32, t: RawTable, ip: Ip, from: nat, accepted: nat, events: seq<Event>)
    requires limit >= 1
  {
    var r := Requests(events, ip, from);
    if ip !in t then accepted <= Tail(limit, r)
    else
      var (start, c) := t[ip];
      && 1 <= c <= Requests(events, ip, start)
      && events != [] && start <= events[|events| - 1].now
      && if start < from then Early(limit, c, r, accepted) else Late(limit, c, r, accepted)
  }

  /** With these bounds fewer than `WORD + limit - 1` requests get no more than `2 * limit - 1` through. */
  lemma TailBounds(limit: u32, c: nat, q: nat)
    requires limit >= 1 && c <= WORD + limit - 2
    ensures q < c ==> LastThrough(limit, c, q) <= Tail(limit, q)
    ensures q + c <= WORD + limit - 2 ==> Tail(limit, q) + Through(limit, c) <= 2 * limit - 1
  {
  }

  lemma BoundedMeans(limit: u32, t: RawTable, ip: Ip, from: nat, accepted: nat, events: seq<Event>)
    requires limit >= 1 && AtMost(events, ip, WORD + limit - 2) && Bounded(limit, t, ip, from, accepted, events)
    ensures accepted <= 2 * limit - 1
  {
    hide Requests, Through, Tail, LastThrough;
    var r := Requests(events, ip, from);
    assert r <= WORD + limit - 2;
    if ip !in t {
      TailBounds(limit, 0, r);
    } else {
      var (start, c) := t[ip];
      assert Requests(events, ip, start) <= WORD + limit - 2;
      if start < from {
        var q: nat :| q <= r && q < c && accepted <= LastThrough(limit, c, q);
        TailBounds(limit, c, q);
        TailBounds(limit, 0, q);
      } else {
        var q: nat :| q + c <= r && accepted <= Tail(limit, q) + Through(limit, c);
        TailBounds(limit, c, q);
      }
    }
  }

  lemma {:induction false} NoneBefore(limit: u32, events: seq<Event>, ip: Ip, from: nat)
    requires forall i :: 0 <= i < |events| ==> events[i].now < from
    ensures Accepted(limit, events, ip, from) == 0
  {
    if events != [] {
      NoneBefore(limit, events[..|events| - 1], ip, from);
    }
  }

  lemma RequestsStep(before: seq<Event>, last: Event, ip: Ip, from: nat)
    ensures Requests(before + [last], ip, from) == Requests(before, ip, from) +
            if last.Check? && last.ip == ip && from <= last.now <= from + WINDOW then 1 else 0
  {
    assert (before + [last])[..|before|] == before;
  }

  /** One more request of the address, in a window that began before `from`. */
  lemma EarlyStep(limit: u32, c: nat, r: nat, accepted: nat, counts: bool)
    requires limit >= 1 && c + 1 <= WORD + limit - 2 && Early(limit, c, r, accepted)
    requires !counts ==> accepted == 0
    ensures (c + 1) % WORD <= limit <==> Through(limit, c + 1) == Through(limit, c) + 1
    ensures var ok := (c + 1) % WORD <= limit;
            Early(limit, c + 1, if counts then r + 1 else r, if counts && ok then accepted + 1 else accepted)
  {
    hide Through;
    ThroughStep(limit, c);
    if counts {
      var q: nat :| q <= r && q < c && accepted <= LastThrough(limit, c, q);
      assert LastThrough(limit, c + 1, q + 1) == Through(limit, c + 1) - Through(limit, c - q);
    } else {
      assert LastThrough(limit, c + 1, 0) == 0;
    }
  }

  lemma ThroughStep(limit: u32, c: nat)
    requires limit >= 1 && c + 1 <= WORD + limit
    ensures Through(limit, c + 1) == Through(limit, c) + if (c + 1) % WORD <= limit then 1 else 0
  {
    if c + 1 >= WORD {
      assert (c + 1) % WORD == c + 1 - WORD;
    }
  }

  lemma LateStep(limit: u32, c: nat, r: nat, accepted: nat)
    requires limit >= 1 && c + 1 <= WORD + limit - 2 && Late(limit, c, r, accepted)
    ensures Late(limit, c + 1, r + 1, if (c + 1) % WORD <= limit then accepted + 1 else accepted)
  {
    hide Through, Tail;
    ThroughStep(limit, c);
    var q: nat :| q + c <= r && accepted <= Tail(limit, q) + Through(limit, c);
    assert q + (c + 1) <= r + 1;
  }

  /** The first request of a window that begins at or after `from`. */
  lemma LateBegins(limit: u32, r: nat, accepted: nat, q: nat)
    requires limit >= 1 && q <= r && accepted <= Tail(limit, q)
    ensures Late(limit, 1, r + 1, accepted + 1)
  {
    hide Tail;
    assert Through(limit, 1) == 1;
    assert q + 1 <= r + 1 && accepted + 1 <= Tail(limit, q) + Through(limit, 1);
  }

  lemma TailGrows(limit: u32, q: nat, r: nat)
    requires limit >= 1 && q <= r
    ensures Tail(limit, q) <= Tail(limit, r)
  {
  }

  /** A request of `ip` itself. */
  lemma CheckBounded(limit: u32, t: Table, raw: RawTable, ip: Ip, from: nat, accepted: nat,
                     before: seq<Event>, now: nat)
    requires limit >= 1 && now <= from + WINDOW && Wraps(t, raw) && Bounded(limit, raw, ip, from, accepted, before)
    requires before != [] ==> before[|before| - 1].now <= now
    requires AtMost(before + [Check(ip, now)], ip, WORD + limit - 2)
    requires now < from ==> accepted == 0
    ensures var ok := CheckStep(t, ip, now, limit).1;
            Bounded(limit, RawStep(raw, ip, now), ip, from, if from <= now && ok then accepted + 1 else accepted,
                    before + [Check(ip, now)])
  {
    hide Early, Late, Requests, Through, Tail, AtMost;
    var r := Requests(before, ip, from);
    var after := before + [Check(ip, now)];
    RequestsStep(before, Check(ip, now), ip, from);
    assert (ip in t <==> ip in raw) && (ip in t ==> t[ip].0 == raw[ip].0 && t[ip].1 == raw[ip].1 % WORD);
    if ip in raw && now - raw[ip].0 <= WINDOW {
      var (start, c) := raw[ip];
      RequestsStep(before, Check(ip, now), ip, start);
      AtMostAt(after, ip, WORD + limit - 2, start);
      WrapCount(c);
      if start < from {
        EarlyStep(limit, c, r, accepted, from <= now);
      } else {
        LateStep(limit, c, r, accepted);
      }
    } else {
      RequestsStep(before, Check(ip, now), ip, now);
      if now < from {
        FirstEarly(limit, Requests(after, ip, from));
      } else {
        if ip in raw {
          RequestsStep(before, Check(ip, now), ip, raw[ip].0);
          AtMostAt(after, ip, WORD + limit - 2, raw[ip].0);
        }
        var q := TailOf(limit, raw, ip, from, accepted, before);
        LateBegins(limit, r, accepted, q);
      }
    }
  }

  lemma AtMostAt(events: seq<Event>, ip: Ip, most: nat, from: nat)
    requires AtMost(events, ip, most)
    ensures Requests(events, ip, from) <= most
  {
  }

  lemma WrapCount(c: nat)
    ensures WrapAdd(c % WORD, 1) == (c + 1) % WORD
  {
  }

  lemma FirstEarly(limit: u32, r: nat)
    requires limit >= 1
    ensures Early(limit, 1, r, 0)
  {
    assert LastThrough(limit, 1, 0) == 0;
  }

  /** What has got through so far, when no window has begun at or after `from`. */
  lemma TailOf(limit: u32, raw: RawTable, ip: Ip, from: nat, accepted: nat, before: seq<Event>) returns (q: nat)
    requires limit >= 1 && Bounded(limit, raw, ip, from, accepted, before)
    requires ip in raw ==> raw[ip].0 < from && raw[ip].1 <= WORD + limit - 2
    ensures q <= Requests(before, ip, from) && accepted <= Tail(limit, q)
  {
    hide Through, Tail, Requests;
    q := Requests(before, ip, from);
    if ip in raw {
      var c := raw[ip].1;
      q :| q <= Requests(before, ip, from) && q < c && accepted <= LastThrough(limit, c, q);
      TailBounds(limit, c, q);
    }
  }

  lemma OtherBounded(limit: u32, raw: RawTable, ip: Ip, from: nat, accepted: nat, before: seq<Event>, last: Event)
    requires limit >= 1 && last.now <= from + WINDOW && Bounded(limit, raw, ip, from, accepted, before)
    requires before != [] ==> before[|before| - 1].now <= last.now
    requires AtMost(before, ip, WORD + limit - 2)
    requires last.Check? ==> last.ip != ip
    ensures Bounded(limit, if last.Check? then RawStep(raw, last.ip, last.now) else RawGc(raw, last.now),
                    ip, from, accepted, before + [last])
  {
    hide Early, Late, Requests, Tail, AtMost;
    RequestsStep(before, last, ip, from);
    if ip in raw {
      RequestsStep(before, last, ip, raw[ip].0);
      AtMostAt(before, ip, WORD + limit - 2, raw[ip].0);
      if last.Gc? && last.now - raw[ip].0 >= 2 * WINDOW {
        var q := TailOf(limit, raw, ip, from, accepted, before);
        TailGrows(limit, q, Requests(before, ip, from));
      }
    }
  }

  lemma AtMostBefore(events: seq<Event>, ip: Ip, most: nat)
    requires events != [] && AtMost(events, ip, most)
    ensures AtMost(events[..|events| - 1], ip, most)
  {
    var before := events[..|events| - 1];
    forall from: nat
      ensures Requests(before, ip, from) <= most
    {
      assert Requests(events, ip, from) <= most;
    }
  }

  lemma LastEvent(limit: u32, before: seq<Event>, last: Event, ip: Ip, from: nat)
    ensures var raw := RawRun(before);
            RawRun(before + [last]) == if last.Check? then RawStep(raw, last.ip, last.now) else RawGc(raw, last.now)
    ensures Accepted(limit, before + [last], ip, from) == Accepted(limit, before, ip, from) +
              if last.Check? && last.ip == ip && from <= last.now <= from + WINDOW
                 && CheckStep(Run(limit, before), ip, last.now, limit).1
              then 1 else 0
  {
    hide RawStep, RawGc, CheckStep, Run;
    assert (before + [last])[..|before|] == before;
  }

  lemma StepBounded(limit: u32, t: Table, raw: RawTable, ip: Ip, from: nat, accepted: nat,
                    before: seq<Event>, last: Event)
    requires limit >= 1 && last.now <= from + WINDOW && Wraps(t, raw) && Bounded(limit, raw, ip, from, accepted, before)
    requires before != [] ==> before[|before| - 1].now <= last.now
    requires AtMost(before, ip, WORD + limit - 2) && AtMost(before + [last], ip, WORD + limit - 2)
    requires last.now < from ==> accepted == 0
    ensures var own := last.Check? && last.ip == ip && from <= last.now && CheckStep(t, ip, last.now, limit).1;
            Bounded(limit, if last.Check? then RawStep(raw, last.ip, last.now) else RawGc(raw, last.now),
                    ip, from, accepted + (if own then 1 else 0), before + [last])
  {
    hide AtMost, Bounded, RawStep, RawGc, CheckStep, Wraps;
    if last.Check? && last.ip == ip {
      CheckBounded(limit, t, raw, ip, from, accepted, before, last.now);
    } else {
      OtherBounded(limit, raw, ip, from, accepted, before, last);
    }
  }

  /** A run up to `from + WINDOW` whose clock does not go back. */
  ghost predicate Until(events: seq<Event>, end: nat) {
    InTime(events) && forall i :: 0 <= i < |events| ==> events[i].now <= end
  }

  lemma UntilBefore(events: seq<Event>, end: nat)
    requires events != [] && Until(events, end)
    ensures Until(events[..|events| - 1], end) && events[|events| - 1].now <= end
    ensures |events| > 1 ==> events[|events| - 2].now <= events[|events| - 1].now
    ensures forall i :: 0 <= i < |events| ==> events[i].now <= events[|events| - 1].now
  {
  }

  lemma {:induction false} RunBounded(limit: u32, events: seq<Event>, ip: Ip, from: nat)
    requires limit >= 1 && AtMost(events, ip, WORD + limit - 2) && Until(events, from + WINDOW)
    ensures Bounded(limit, RawRun(events), ip, from, Accepted(limit, events, ip, from), events)
  {
    if events == [] {
      assert Tail(limit, 0) == 0;
    } else {
      var before, last := events[..|events| - 1], events[|events| - 1];
      UntilBefore(events, from + WINDOW);
      hide AtMost, Bounded, RawStep, RawGc, CheckStep, Wraps, Run, RawRun, Accepted, Until;
      AtMostBefore(events, ip, WORD + limit - 2);
      RunBounded(limit, before, ip, from);
      if last.now < from {
        NoneBefore(limit, before, ip, from);
      }
      assert events == before + [last];
      RunWraps(limit, before);
      StepBounded(limit, Run(limit, before), RawRun(before), ip, from, Accepted(limit, before, ip, from), before, last);
      LastEvent(limit, before, last, ip, from);
    }
  }

  /**
   * With a clock that does not go back, no address gets more than `2 * limit - 1` requests through in
   * any 60 seconds, collected or not, if it makes fewer than `2^32 + limit - 1` in each.
   */
  lemma {:induction false} RateBound(limit: u32, events: seq<Event>, ip: Ip, from: nat)
    requires limit >= 1 && AtMost(events, ip, WORD + limit - 2) && InTime(events)
    ensures Accepted(limit, events, ip, from) <= 2 * limit - 1
  {
    if events != [] && events[|events| - 1].now > from + WINDOW {
      AtMostBefore(events, ip, WORD + limit - 2);
      RateBound(limit, events[..|events| - 1], ip, from);
    } else {
      RunBounded(limit, events, ip, from);
      BoundedMeans(limit, RawRun(events), ip, from, Accepted(limit, events, ip, from), events);
    }
  }

  // ---- the bound is reached ----

  function Repeat(e: Event, n: nat): seq<Event> {
    seq(n, _ => e)
  }

  lemma {:induction false} Burst(limit: u32, events: seq<Event>, ip: Ip, now: nat, from: nat, n: nat)
    requires n < WORD && from <= now <= from + WINDOW
    requires var t := Run(limit, events); ip in t && now - t[ip].0 <= WINDOW && t[ip].1 + n <= limit
    ensures var more := events + Repeat(Check(ip, now), n);
            var t := Run(limit, events);
            && ip in Run(limit, more) && Run(limit, more)[ip] == (t[ip].0, t[ip].1 + n)
            && Accepted(limit, more, ip, from) == Accepted(limit, events, ip, from) + n
  {
    hide Run, Accepted;
    if n == 0 {
      assert events + Repeat(Check(ip, now), 0) == events;
    } else {
      Burst(limit, events, ip, now, from, n - 1);
      var most := events + Repeat(Check(ip, now), n - 1);
      assert events + Repeat(Check(ip, now), n) == most + [Check(ip, now)];
      OneMore(limit, most, ip, now, from);
    }
  }

  lemma OneMore(limit: u32, events: seq<Event>, ip: Ip, now: nat, from: nat)
    ensures var t := Run(limit, events);
            var (t', ok) := CheckStep(t, ip, now, limit);
            && Run(limit, events + [Check(ip, now)]) == t'
            && Accepted(limit, events + [Check(ip, now)], ip, from)
            == Accepted(limit, events, ip, from) + (if from <= now <= from + WINDOW && ok then 1 else 0)
  {
    assert (events + [Check(ip, now)])[..|events|] == events;
  }

  /** One request, `limit - 1` more a whole window later, and `limit` just after: all but the first in 60 seconds. */
  lemma RateBoundIsReached(limit: u32, ip: Ip) returns (events: seq<Event>)
    requires 1 <= limit
    ensures InTime(events)
    ensures Accepted(limit, events, ip, WINDOW) == 2 * limit - 1
  {
    FirstCheck(limit, ip);
    hide Run, Accepted;
    events := [Check(ip, 0)];
    Burst(limit, events, ip, WINDOW, WINDOW, limit - 1);
    events := events + Repeat(Check(ip, WINDOW), limit - 1);
    OneMore(limit, events, ip, WINDOW + 1, WINDOW);
    events := events + [Check(ip, WINDOW + 1)];
    Burst(limit, events, ip, WINDOW + 1, WINDOW, limit - 1);
    events := events + Repeat(Check(ip, WINDOW + 1), limit - 1);
  }

  lemma FirstCheck(limit: u32, ip: Ip)
    ensures Run(limit, [Check(ip, 0)]) == map[ip := (0, 1)]
    ensures Accepted(limit, [Check(ip, 0)], ip, WINDOW) == 0
  {
    OneMore(limit, [], ip, 0, WINDOW);
    assert [] + [Check(ip, 0)] == [Check(ip, 0)];
  }

  // ---- and so is the number of requests it holds for ----

  lemma RepeatOnce(e: Event, n: nat)
    ensures Repeat(e, n + 1) == Repeat(e, n) + [e]
  {
  }

  /** The table after `c` requests of `ip` at time 0. */
  function Flooded(ip: Ip, c: nat): Table {
    if c == 0 then map[] else map[ip := (0, c % WORD)]
  }

  lemma MomentStep(limit: u32, ip: Ip, c: nat)
    requires limit >= 1 && c + 1 <= WORD + limit
    ensures CheckStep(Flooded(ip, c), ip, 0, limit)
         == (Flooded(ip, c + 1), Through(limit, c + 1) == Through(limit, c) + 1)
    ensures Through(limit, c) <= Through(limit, c + 1) <= Through(limit, c) + 1
  {
    ThroughStep(limit, c);
    WrapCount(c);
    var after := CheckStep(Flooded(ip, c), ip, 0, limit).0;
    assert after == Flooded(ip, c + 1);
  }

  /** Requests all made in one moment. */
  lemma {:induction false} Flood(limit: u32, ip: Ip, n: nat)
    requires 1 <= limit && n <= WORD + limit - 1
    ensures var events := Repeat(Check(ip, 0), n);
            Run(limit, events) == Flooded(ip, n) && Accepted(limit, events, ip, 0) == Through(limit, n)
  {
    if n > 0 {
      hide Run, Accepted, Through, CheckStep, Repeat, Flooded;
      Flood(limit, ip, n - 1);
      RepeatOnce(Check(ip, 0), n - 1);
      OneMore(limit, Repeat(Check(ip, 0), n - 1), ip, 0, 0);
      MomentStep(limit, ip, n - 1);
    }
  }

  lemma {:induction false} RequestsAtMost(events: seq<Event>, ip: Ip, from: nat)
    ensures Requests(events, ip, from) <= |events|
  {
    if events != [] {
      RequestsAtMost(events[..|events| - 1], ip, from);
    }
  }

  ghost predicate RateSafe(limit: u32, most: nat) {
    forall events, ip: Ip, from: nat :: InTime(events) && AtMost(events, ip, most) ==>
      Accepted(limit, events, ip, from) <= 2 * limit - 1
  }

  /** The bound holds on all runs with at most `most` requests in any 60 seconds exactly below `2^32 + limit - 1`. */
  lemma RateLimitIff(limit: u32, most: nat)
    requires limit >= 1
    ensures RateSafe(limit, most) <==> most < WORD + limit - 1
  {
    if most < WORD + limit - 1 {
      forall events, ip: Ip, from: nat | InTime(events) && AtMost(events, ip, most)
        ensures Accepted(limit, events, ip, from) <= 2 * limit - 1
      {
        forall f: nat
          ensures Requests(events, ip, f) <= WORD + limit - 2
        {
          AtMostAt(events, ip, most, f);
        }
        RateBound(limit, events, ip, from);
      }
    } else {
      hide Accepted, Requests;
      var events := Repeat(Check(0, 0), WORD + limit - 1);
      Flood(limit, 0, WORD + limit - 1);
      forall f: nat
        ensures Requests(events, 0, f) <= most
      {
        RequestsAtMost(events, 0, f);
      }
      assert InTime(events) && AtMost(events, 0, most);
      assert Accepted(limit, events, 0, 0) == 2 * limit;
    }
  }

  // ---- garbage collection is invisible ----

  function Checks(events: seq<Event>): seq<Event> {
    if events == [] then []
    else Checks(events[..|events| - 1])
         + if events[|events| - 1].Check? then [events[|events| - 1]] else []
  }

  /** The answers to the checks, in order. */
  function Decisions(limit: u32, events: seq<Event>): seq<bool> {
    if events == [] then []
    else
      var before, last := events[..|events| - 1], events[|events| - 1];
      Decisions(limit, before) + if last.Check? then [Allowed(limit, before, last)] else []
  }

  /** The collected table lacks only entries that have expired by `now`. */
  ghost predicate Collected(gone: Table, kept: Table, now: nat) {
    && (forall ip :: ip in gone ==> ip in kept && gone[ip] == kept[ip])
    && (forall ip :: ip in kept && ip !in gone ==> now - kept[ip].0 > WINDOW)
  }

  lemma {:induction false} GcKeepsTable(limit: u32, events: seq<Event>, now: nat)
    requires limit >= 1 && InTime(events) && forall i :: 0 <= i < |events| ==> events[i].now <= now
    ensures Collected(Run(limit, events), Run(limit, Checks(events)), now)
    ensures Decisions(limit, events) == Decisions(limit, Checks(events))
  {
    if events != [] {
      var before, last := events[..|events| - 1], events[|events| - 1];
      GcKeepsTable(limit, before, last.now);
      if last.Check? {
        var checks := Checks(events);
        assert checks[..|checks| - 1] == Checks(before);
      } else {
        assert Checks(events) == Checks(before);
      }
    }
  }

  /** Removing every garbage collection from a run changes no answer. */
  lemma GcInvisible(limit: u32, events: seq<Event>)
    requires limit >= 1 && InTime(events)
    ensures Decisions(limit, events) == Decisions(limit, Checks(events))
  {
    if events != [] {
      GcKeepsTable(limit, events, events[|events| - 1].now);
    }
  }

  // ---- every answer, exactly ----

  datatype Window = Window(start: nat, count: nat)

  /**
   * The window `ip` is in, from its own requests alone: it begins with its first request and again with
   * the first one more than 60 seconds after it last began.
   */
  function OwnWindow(events: seq<Event>, ip: Ip): Option<Window> {
    if events == [] then None
    else
      var before, last := OwnWindow(events[..|events| - 1], ip), events[|events| - 1];
      if !last.Check? || last.ip != ip then before
      else if before.Some? && last.now <= before.value.start + 60_000_000_000
      then Some(Window(before.value.start, before.value.count + 1))
      else Some(Window(last.now, 1))
  }

  /** The entry of `ip` is its window; it lacks one only if that began 120 seconds before `now` or earlier. */
  ghost predicate Tracks(t: Table, ip: Ip, window: Option<Window>, now: nat) {
    && (ip in t ==> window.Some? && t[ip] == (window.value.start, window.value.count % 0x1_0000_0000))
    && (ip !in t && window.Some? ==> now >= window.value.start + 120_000_000_000)
  }

  lemma CheckTracks(t: Table, ip: Ip, who: Ip, window: Option<Window>, past: nat, now: nat, limit: u32)
    requires Tracks(t, who, window, past) && past <= now && limit >= 1
    ensures var (after, ok) := CheckStep(t, ip, now, limit);
            if ip != who then Tracks(after, who, window, now)
            else
              var next := if window.Some? && now <= window.value.start + 60_000_000_000
                          then Window(window.value.start, window.value.count + 1) else Window(now, 1);
              Tracks(after, who, Some(next), now) && (ok <==> next.count % 0x1_0000_0000 <= limit)
  {
    hide WrapAdd;
    WrapCount(if window.Some? then window.value.count else 0);
    assert WrapAdd(0, 1) == 1 by {
      WrapCount(0);
    }
  }

  lemma GcTracks(t: Table, who: Ip, window: Option<Window>, past: nat, now: nat)
    requires Tracks(t, who, window, past) && past <= now
    ensures Tracks(GcStep(t, now), who, window, now)
    ensures who in GcStep(t, now) <==> window.Some? && now < window.value.start + 120_000_000_000
  {
  }

  function LastTime(events: seq<Event>): nat {
    if events == [] then 0 else events[|events| - 1].now
  }

  lemma {:induction false} RunTracks(limit: u32, events: seq<Event>, who: Ip)
    requires limit >= 1 && InTime(events)
    ensures Tracks(Run(limit, events), who, OwnWindow(events, who), LastTime(events))
  {
    if events != [] {
      var before, last := events[..|events| - 1], events[|events| - 1];
      RunTracks(limit, before, who);
      hide Tracks, CheckStep, GcStep;
      match last
      case Check(ip, now) =>
        CheckTracks(Run(limit, before), ip, who, OwnWindow(before, who), LastTime(before), now, limit);
      case Gc(now) => GcTracks(Run(limit, before), who, OwnWindow(before, who), LastTime(before), now);
    }
  }

  lemma OneMoreEvent(limit: u32, events: seq<Event>, last: Event, ip: Ip)
    requires InTime(events) && LastTime(events) <= last.now
    ensures InTime(events + [last])
    ensures Run(limit, events + [last]) ==
            if last.Check? then CheckStep(Run(limit, events), last.ip, last.now, limit).0
            else GcStep(Run(limit, events), last.now)
    ensures OwnWindow(events + [last], ip)
         == if last.Check? && last.ip == ip
            then if OwnWindow(events, ip).Some? && last.now <= OwnWindow(events, ip).value.start + 60_000_000_000
                 then Some(Window(OwnWindow(events, ip).value.start, OwnWindow(events, ip).value.count + 1))
                 else Some(Window(last.now, 1))
            else OwnWindow(events, ip)
  {
    hide CheckStep, GcStep;
    assert (events + [last])[..|events|] == events;
  }

  lemma {:induction false} WindowBegan(events: seq<Event>, ip: Ip)
    requires InTime(events)
    ensures OwnWindow(events, ip).Some? ==> OwnWindow(events, ip).value.start <= LastTime(events)
  {
    if events != [] {
      WindowBegan(events[..|events| - 1], ip);
    }
  }

  /**
   * With a clock that does not go back a request is allowed exactly if it is among the first `limit` of
   * its address's window, counted modulo 2^32, whatever other addresses do and whenever entries are
   * collected.
   */
  lemma AllowedIff(limit: u32, events: seq<Event>, ip: Ip, now: nat)
    requires limit >= 1 && InTime(events) && LastTime(events) <= now
    ensures var window := OwnWindow(events + [Check(ip, now)], ip);
            && window.Some? && window.value.start <= now <= window.value.start + 60_000_000_000
            && (Allowed(limit, events, Check(ip, now)) <==> window.value.count % 0x1_0000_0000 <= limit)
  {
    RunTracks(limit, events, ip);
    WindowBegan(events, ip);
    OneMoreEvent(limit, events, Check(ip, now), ip);
    hide Run, OwnWindow, CheckStep, InTime, Tracks;
    CheckTracks(Run(limit, events), ip, ip, OwnWindow(events, ip), LastTime(events), now, limit);
  }

  /** Right after a collection exactly the windows that began less than 120 seconds ago are held. */
  lemma CollectedIff(limit: u32, events: seq<Event>, ip: Ip, now: nat)
    requires limit >= 1 && InTime(events) && LastTime(events) <= now
    ensures var t, window := Run(limit, events + [Gc(now)]), OwnWindow(events, ip);
            && (ip in t <==> window.Some? && now < window.value.start + 120_000_000_000)
            && (ip in t ==> t[ip] == (window.value.start, window.value.count % 0x1_0000_0000))
  {
    RunTracks(limit, events, ip);
    OneMoreEvent(limit, events, Gc(now), ip);
    hide Run, OwnWindow, GcStep, InTime;
    GcTracks(Run(limit, events), ip, OwnWindow(events, ip), LastTime(events), now);
  }
}
