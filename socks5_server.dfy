/** The server's per-connection gate and its bookkeeping: the deny list,
    the allow list, temporary blocks and the session cap, checked in that
    order for every accepted client; the sliding one-minute window of
    authentication failures that installs temporary blocks; and the
    statistics counters updated around each session. Sockets, coroutines
    and the clock are left out: `now` is a parameter and one connection is
    handled at a time. */
module Socks5Server {
  import opened Bytes
  import IpAcl
  import Socks5Session

  /** The length of the authentication-failure window, in milliseconds. */
  const WindowMs := 60000

  /** One minute of temporary block, in milliseconds. */
  const MinuteMs := 60000

  /*********************************************************************
   * Statistics
   *********************************************************************/

  datatype Stats = Stats(activeSessions: int, totalSessions: int, totalBytes: int)

  /** `updateStats`: the active count moves by its delta but never below
      zero; the two totals move by exactly their deltas. */
  function Updated(s: Stats, activeDelta: int, sessionDelta: int, bytesDelta: int): (r: Stats)
    ensures r.activeSessions >= 0
    ensures s.activeSessions + activeDelta >= 0 ==> r.activeSessions == s.activeSessions + activeDelta
    ensures s.activeSessions + activeDelta < 0 ==> r.activeSessions == 0
    ensures r.totalSessions - s.totalSessions == sessionDelta && r.totalBytes - s.totalBytes == bytesDelta
  {
    var a := s.activeSessions + activeDelta;
    Stats(if a < 0 then 0 else a, s.totalSessions + sessionDelta, s.totalBytes + bytesDelta)
  }

  /** The three updates of one launched session: +1 before `handle`, -1
      in its `finally`, then the bytes, which are only added when
      `handle` returned (None: it threw). */
  function Accounted(s: Stats, returned: Option<Socks5Session.Transfer>): Stats
  {
    var started := Updated(s, 1, 1, 0);
    var ended := Updated(started, -1, 0, 0);
    match returned
    case None => ended
    case Some(t) => Updated(ended, 0, 0, t.up + t.down)
  }

  /** A session leaves the active count where it found it and counts one
      more session, whether or not `handle` threw; the bytes it moved are
      added only when it returned. */
  lemma SessionNet(s: Stats, returned: Option<Socks5Session.Transfer>)
    requires s.activeSessions >= 0
    ensures var r := Accounted(s, returned);
            && r.activeSessions == s.activeSessions
            && r.totalSessions == s.totalSessions + 1
            && r.totalBytes == s.totalBytes + (if returned.Some? then returned.value.up + returned.value.down else 0)
  {
  }

  /*********************************************************************
   * Admission
   *********************************************************************/

  datatype Config = Config(
    maxSessions: int,
    allowList: Option<seq<string>>,
    denyList: Option<seq<string>>,
    authFailThresholdPerMin: int,
    tempBlockMinutes: int,
    resolve: IpAcl.Resolver)

  /** What the accept loop does with a client: hand it to a session, or
      close it for one of three reasons. An exception from the ACL
      matcher is not caught there and ends `serve` itself. */
  datatype Decision = Admitted | AclDenied | TempBlocked | AtCapacity | Crashed(fault: Fault)

  /** Blocked while the recorded expiry is still in the future. */
  predicate IsBlocked(blocks: map<string, int>, ip: string, now: int)
  {
    ip in blocks && blocks[ip] > now
  }

  /** The checks of the accept loop, in order: deny list, allow list,
      temporary block, session cap. The allow list is consulted only when
      the deny list did not match. */
  function Screen(cfg: Config, blocks: map<string, int>, active: int, ip: string, now: int): Decision
  {
    match IpAcl.AnyMatch(ip, cfg.denyList, cfg.resolve)
    case Raised(f) => Crashed(f)
    case Ok(true) => AclDenied
    case Ok(false) =>
      var allowed :=
        if cfg.allowList.None? then Ok(true) else IpAcl.AnyMatch(ip, cfg.allowList, cfg.resolve);
      match allowed
      case Raised(f) => Crashed(f)
      case Ok(false) => AclDenied
      case Ok(true) =>
        if IsBlocked(blocks, ip, now) then TempBlocked
        else if active >= cfg.maxSessions then AtCapacity
        else Admitted
  }

  /** A client is admitted iff it passes all four checks. */
  lemma AdmittedIff(cfg: Config, blocks: map<string, int>, active: int, ip: string, now: int)
    ensures Screen(cfg, blocks, active, ip, now) == Admitted <==>
              && IpAcl.AnyMatch(ip, cfg.denyList, cfg.resolve) == Ok(false)
              && (cfg.allowList.None? || IpAcl.AnyMatch(ip, cfg.allowList, cfg.resolve) == Ok(true))
              && !IsBlocked(blocks, ip, now)
              && active < cfg.maxSessions
  {
  }

  /** A client the deny list matches is refused, whatever the allow list,
      the blocks and the session count say. */
  lemma DenyWins(cfg: Config, blocks: map<string, int>, active: int, ip: string, now: int)
    requires IpAcl.AnyMatch(ip, cfg.denyList, cfg.resolve) == Ok(true)
    ensures Screen(cfg, blocks, active, ip, now) == AclDenied
  {
  }

  /** A present but empty allow list refuses every client the deny list
      lets through. */
  lemma EmptyAllowListRefuses(cfg: Config, blocks: map<string, int>, active: int, ip: string, now: int)
    requires cfg.allowList == Some([])
    requires IpAcl.AnyMatch(ip, cfg.denyList, cfg.resolve) == Ok(false)
    ensures Screen(cfg, blocks, active, ip, now) == AclDenied
  {
  }

  /** The ACL checks come first: a client refused by them is refused for
      that reason even when it is also blocked or the server is full. */
  lemma AclBeforeBlockAndCap(cfg: Config, blocks: map<string, int>, active: int, ip: string, now: int)
    requires cfg.allowList.Some? && IpAcl.AnyMatch(ip, cfg.allowList, cfg.resolve) == Ok(false)
    requires IpAcl.AnyMatch(ip, cfg.denyList, cfg.resolve) == Ok(false)
    ensures Screen(cfg, blocks, active, ip, now) == AclDenied
  {
  }

  /** A block installed at `at` for `minutes` minutes holds from `at` up
      to, and not including, its expiry. */
  lemma BlockExpiry(blocks: map<string, int>, ip: string, at: int, minutes: int, now: int)
    ensures IsBlocked(blocks[ip := at + minutes * MinuteMs], ip, now) <==> now < at + minutes * MinuteMs
    ensures !IsBlocked(blocks[ip := at + minutes * MinuteMs], ip, at + minutes * MinuteMs)
    ensures minutes > 0 ==> IsBlocked(blocks[ip := at + minutes * MinuteMs], ip, at)
  {
  }

  /*********************************************************************
   * Authentication-failure throttle
   *********************************************************************/

  /** `removeIf { it < cutoff }`: the timestamps not older than `cutoff`,
      in order. */
  function Recent(list: seq<int>, cutoff: int): (r: seq<int>)
    ensures forall x :: x in r <==> x in list && x >= cutoff
    ensures |r| <= |list|
  {
    if list == [] then []
    else
      assert forall x :: x in list <==> x == list[0] || x in list[1..];
      if list[0] < cutoff then Recent(list[1..], cutoff) else [list[0]] + Recent(list[1..], cutoff)
  }

  /** Nothing is dropped when nothing is older than the cutoff. */
  lemma {:induction false} RecentKeepsAll(list: seq<int>, cutoff: int)
    requires forall i | 0 <= i < |list| :: list[i] >= cutoff
    ensures Recent(list, cutoff) == list
  {
    if list != [] {
      RecentKeepsAll(list[1..], cutoff);
    }
  }

  /** The failure windows and the temporary blocks, per client address. */
  datatype Throttle = Throttle(failWindow: map<string, seq<int>>, tempBlockedUntil: map<string, int>)

  /** `recordAuthFail(ip)` at `now`: append `now` to the client's window,
      drop what is older than a minute, and when `threshold` failures
      remain, block the client for `minutes` minutes and empty its
      window. */
  function AfterAuthFail(t: Throttle, ip: string, now: int, threshold: int, minutes: int): Throttle
  {
    var prior := if ip in t.failWindow then t.failWindow[ip] else [];
    var list := Recent(prior + [now], now - WindowMs);
    if |list| >= threshold then
      Throttle(t.failWindow[ip := []], t.tempBlockedUntil[ip := now + minutes * MinuteMs])
    else
      Throttle(t.failWindow[ip := list], t.tempBlockedUntil)
  }

  /** After a failure, with a threshold of at least one, the client's
      window is shorter than the threshold and holds only the last
      minute; no other client's window or block changes. */
  lemma AuthFailWindow(t: Throttle, ip: string, now: int, threshold: int, minutes: int)
    requires threshold >= 1
    ensures var t' := AfterAuthFail(t, ip, now, threshold, minutes);
            && ip in t'.failWindow && |t'.failWindow[ip]| < threshold
            && (forall x | x in t'.failWindow[ip] :: now - WindowMs <= x)
            && t'.failWindow.Keys == t.failWindow.Keys + {ip}
            && (forall k | k in t.failWindow && k != ip :: t'.failWindow[k] == t.failWindow[k])
            && (forall k | k != ip :: (k in t'.tempBlockedUntil <==> k in t.tempBlockedUntil))
            && (forall k | k in t.tempBlockedUntil && k != ip :: t'.tempBlockedUntil[k] == t.tempBlockedUntil[k])
  {
  }

  /** A failure that brings the last minute's count to the threshold
      blocks the client from `now` for `minutes` minutes; one that does
      not leaves every block as it was. */
  lemma AuthFailBlocks(t: Throttle, ip: string, now: int, threshold: int, minutes: int)
    ensures var prior := if ip in t.failWindow then t.failWindow[ip] else [];
            var t' := AfterAuthFail(t, ip, now, threshold, minutes);
            && (|Recent(prior + [now], now - WindowMs)| >= threshold ==>
                  t'.tempBlockedUntil == t.tempBlockedUntil[ip := now + minutes * MinuteMs] && t'.failWindow[ip] == [])
            && (|Recent(prior + [now], now - WindowMs)| < threshold ==> t'.tempBlockedUntil == t.tempBlockedUntil)
  {
  }

  /** A run of failures from one client, in order. */
  function Replay(t: Throttle, ip: string, times: seq<int>, threshold: int, minutes: int): Throttle
    decreases |times|
  {
    if times == [] then t
    else AfterAuthFail(Replay(t, ip, times[..|times| - 1], threshold, minutes), ip, times[|times| - 1], threshold, minutes)
  }

  /** Every failure time of `times` lies in the minute from `start`. */
  predicate WithinMinute(times: seq<int>, start: int)
  {
    forall i | 0 <= i < |times| :: start <= times[i] <= start + WindowMs
  }

  /** Failures at times no older than a minute before `now` are all kept
      when one more is recorded at `now`. */
  lemma AppendKeepsAll(init: seq<int>, now: int)
    requires forall i | 0 <= i < |init| :: init[i] >= now - WindowMs
    ensures Recent(init + [now], now - WindowMs) == init + [now]
  {
    var times := init + [now];
    forall i | 0 <= i < |times| ensures times[i] >= now - WindowMs {
      if i < |init| { assert times[i] == init[i]; }
    }
    RecentKeepsAll(times, now - WindowMs);
  }

  /** A failure that finds the window holding `init`, all within the
      last minute, and stays under the threshold is appended. */
  lemma FailureRemembered(t: Throttle, ip: string, init: seq<int>, now: int, threshold: int, minutes: int)
    requires (if ip in t.failWindow then t.failWindow[ip] else []) == init
    requires forall i | 0 <= i < |init| :: init[i] >= now - WindowMs
    requires |init| + 1 < threshold
    ensures AfterAuthFail(t, ip, now, threshold, minutes) == Throttle(t.failWindow[ip := init + [now]], t.tempBlockedUntil)
  {
    AppendKeepsAll(init, now);
  }

  /** A failure that finds the window holding `init`, all within the
      last minute, and reaches the threshold installs the block. */
  lemma FailureBlocks(t: Throttle, ip: string, init: seq<int>, now: int, threshold: int, minutes: int)
    requires (if ip in t.failWindow then t.failWindow[ip] else []) == init
    requires forall i | 0 <= i < |init| :: init[i] >= now - WindowMs
    requires |init| + 1 >= threshold
    ensures AfterAuthFail(t, ip, now, threshold, minutes).tempBlockedUntil == t.tempBlockedUntil[ip := now + minutes * MinuteMs]
  {
    AppendKeepsAll(init, now);
  }

  /** Starting from an empty window, fewer failures than the threshold,
      all within one minute, are all remembered and install no block. */
  lemma {:induction false} ReplayBelowThreshold(t: Throttle, ip: string, times: seq<int>, start: int, threshold: int, minutes: int)
    requires ip !in t.failWindow || t.failWindow[ip] == []
    requires WithinMinute(times, start) && |times| < threshold
    ensures Replay(t, ip, times, threshold, minutes).failWindow == (if times == [] then t.failWindow else t.failWindow[ip := times])
    ensures Replay(t, ip, times, threshold, minutes).tempBlockedUntil == t.tempBlockedUntil
  {
    if times != [] {
      var init := times[..|times| - 1];
      var now := times[|times| - 1];
      assert WithinMinute(init, start) by {
        forall i | 0 <= i < |init| ensures start <= init[i] <= start + WindowMs {
          assert init[i] == times[i];
        }
      }
      ReplayBelowThreshold(t, ip, init, start, threshold, minutes);
      var r := Replay(t, ip, init, threshold, minutes);
      assert (if ip in r.failWindow then r.failWindow[ip] else []) == init;
      FailureRemembered(r, ip, init, now, threshold, minutes);
      assert init + [now] == times;
      assert r.failWindow[ip := times] == t.failWindow[ip := times];
    }
  }

  /** `threshold` failures from one client, all within one minute and
      starting from an empty window, block it from the last of them for
      `minutes` minutes. */
  lemma ThresholdFailuresBlock(t: Throttle, ip: string, times: seq<int>, start: int, threshold: int, minutes: int)
    requires ip !in t.failWindow || t.failWindow[ip] == []
    requires threshold >= 1 && |times| == threshold && WithinMinute(times, start)
    ensures var t' := Replay(t, ip, times, threshold, minutes);
            && t'.tempBlockedUntil == t.tempBlockedUntil[ip := times[|times| - 1] + minutes * MinuteMs]
            && (minutes > 0 ==> IsBlocked(t'.tempBlockedUntil, ip, times[|times| - 1]))
  {
    var init := times[..|times| - 1];
    var now := times[|times| - 1];
    assert WithinMinute(init, start) by {
      forall i | 0 <= i < |init| ensures start <= init[i] <= start + WindowMs {
        assert init[i] == times[i];
      }
    }
    ReplayBelowThreshold(t, ip, init, start, threshold, minutes);
    var r := Replay(t, ip, init, threshold, minutes);
    assert (if ip in r.failWindow then r.failWindow[ip] else []) == init;
    FailureBlocks(r, ip, init, now, threshold, minutes);
  }

  /*********************************************************************
   * The server
   *********************************************************************/

  class Server {
    const cfg: Config
    var stats: Stats
    var failWindow: map<string, seq<int>>
    var tempBlockedUntil: map<string, int>

    function Throttled(): Throttle
      reads this
    {
      Throttle(failWindow, tempBlockedUntil)
    }

    /** The active count never goes below zero. */
    ghost predicate Valid()
      reads this
    {
      stats.activeSessions >= 0
    }

    constructor (cfg: Config)
      ensures this.cfg == cfg && stats == Stats(0, 0, 0) && Throttled() == Throttle(map[], map[])
      ensures Valid()
    {
      this.cfg := cfg;
      stats := Stats(0, 0, 0);
      failWindow := map[];
      tempBlockedUntil := map[];
    }

    /** The checks the accept loop runs on a client from `ip` at `now`. */
    method Admit(ip: string, now: int) returns (d: Decision)
      ensures d == Screen(cfg, tempBlockedUntil, stats.activeSessions, ip, now)
    {
      var denied := IpAcl.AnyMatch(ip, cfg.denyList, cfg.resolve);
      if denied.Raised? {
        return Crashed(denied.fault);
      }
      if denied.value {
        return AclDenied;
      }
      if cfg.allowList.Some? {
        var allowed := IpAcl.AnyMatch(ip, cfg.allowList, cfg.resolve);
        if allowed.Raised? {
          return Crashed(allowed.fault);
        }
        if !allowed.value {
          return AclDenied;
        }
      }
      if ip in tempBlockedUntil && tempBlockedUntil[ip] > now {
        return TempBlocked;
      }
      if stats.activeSessions >= cfg.maxSessions {
        return AtCapacity;
      }
      return Admitted;
    }

    /** `updateStats`. */
    method UpdateStats(activeDelta: int, sessionDelta: int, bytesDelta: int)
      modifies this
      ensures stats == Updated(old(stats), activeDelta, sessionDelta, bytesDelta)
      ensures Throttled() == old(Throttled()) && Valid()
    {
      var cur := stats;
      var a := cur.activeSessions + activeDelta;
      stats := Stats(if a < 0 then 0 else a, cur.totalSessions + sessionDelta, cur.totalBytes + bytesDelta);
    }

    /** `recordAuthFail(ip)` at `now`. */
    method RecordAuthFail(ip: string, now: int)
      modifies this
      ensures Throttled() == AfterAuthFail(old(Throttled()), ip, now, cfg.authFailThresholdPerMin, cfg.tempBlockMinutes)
      ensures stats == old(stats)
    {
      var list := if ip in failWindow then failWindow[ip] else [];
      list := list + [now];
      var cutoff := now - WindowMs;
      list := Recent(list, cutoff);
      if |list| >= cfg.authFailThresholdPerMin {
        tempBlockedUntil := tempBlockedUntil[ip := now + cfg.tempBlockMinutes * MinuteMs];
        list := [];
      }
      failWindow := failWindow[ip := list];
    }

    /** The launched coroutine for one admitted client: count the session,
      run `handle` (None: it threw), count it closed, add its bytes. */
    method Launch(returned: Option<Socks5Session.Transfer>)
      requires Valid()
      modifies this
      ensures stats == Accounted(old(stats), returned) && Valid()
      ensures Throttled() == old(Throttled())
      ensures stats.activeSessions == old(stats.activeSessions) && stats.totalSessions == old(stats.totalSessions) + 1
    {
      UpdateStats(1, 1, 0);
      UpdateStats(-1, 0, 0);
      if returned.Some? {
        UpdateStats(0, 0, returned.value.up + returned.value.down);
      }
      SessionNet(old(stats), returned);
    }

    /** One pass of the accept loop for a client from `ip`: screen it
      and, when admitted, serve its session over `input` to the end,
      recording an authentication failure at `failedAt` if the session
      reports one. */
    method Accept(ip: string, now: int, failedAt: int, env: Socks5Session.Env, input: seq<Byte>) returns (d: Decision)
      requires Valid()
      requires env.clientIp == ip && env.onAuthFailed
      modifies this
      ensures d == Screen(cfg, old(tempBlockedUntil), old(stats.activeSessions), ip, now) && Valid()
      ensures !d.Admitted? ==> stats == old(stats) && Throttled() == old(Throttled())
      ensures d.Admitted? ==>
                var run := Socks5Session.Run(env, input);
                && stats == Accounted(old(stats), Some(Socks5Session.Returned(run.outcome)))
                && Throttled() == if run.reported.Some?
                                  then AfterAuthFail(old(Throttled()), ip, failedAt, cfg.authFailThresholdPerMin, cfg.tempBlockMinutes)
                                  else old(Throttled())
    {
      d := Admit(ip, now);
      if d != Admitted {
        return;
      }
      var run := Socks5Session.Run(env, input);
      UpdateStats(1, 1, 0);
      if run.reported.Some? {
        RecordAuthFail(run.reported.value, failedAt);
      }
      UpdateStats(-1, 0, 0);
      var t := Socks5Session.Returned(run.outcome);
      UpdateStats(0, 0, t.up + t.down);
    }
  }
}
