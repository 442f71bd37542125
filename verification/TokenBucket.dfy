/**
 The event budget of the flight recorder (internal/diagnostics/recorder.go: Admit and sessionLocked).
 Times are seconds, as reals, and Go's zero time is 0. Tokens are reals where the source has 64-bit
 floats.
 */
module TokenBucket {

  datatype Log = Log(lastAt: real, tokens: real, refillAt: real)

  datatype Ask = Ask(n: int, now: real)

  // ---------------------------------------------------------------------
  // One ask
  // ---------------------------------------------------------------------

  /** The tokens that flow in. */
  function Flow(elapsed: real, rate: real): (flow: real)
    ensures elapsed >= 0.0 && rate >= 0.0 ==> flow >= 0.0
  {
    elapsed * rate
  }

  /** The bucket brought up to date: full at first, later with what flowed in, as far as there is room. */
  function Refilled(s: Log, now: real, burst: nat, rate: real): Log {
    if s.refillAt == 0.0 then s.(tokens := burst as real, refillAt := now)
    else if now - s.refillAt > 0.0 then
      var tokens := s.tokens + Flow(now - s.refillAt, rate);
      s.(tokens := if tokens > burst as real then burst as real else tokens, refillAt := now)
    else s
  }

  /** As many whole tokens as there are, and no more than were asked for. */
  function Grant(s: Log, ask: Ask, burst: nat, rate: real): int {
    var whole := Refilled(s, ask.now, burst, rate).tokens.Floor;
    if whole > ask.n then ask.n else whole
  }

  function After(s: Log, ask: Ask, burst: nat, rate: real): Log {
    var full := Refilled(s, ask.now, burst, rate);
    full.(tokens := full.tokens - Grant(s, ask, burst, rate) as real)
  }

  /** An ask as it happened: what flowed in before it, what found no room, and what was granted. */
  datatype Moment = Moment(before: Log, ask: Ask, inflow: real, excess: real, granted: int, after: Log)

  function Made(s: Log, ask: Ask, burst: nat, rate: real): Moment {
    var inflow := if s.refillAt == 0.0 then burst as real - s.tokens
                  else if ask.now - s.refillAt > 0.0 then Flow(ask.now - s.refillAt, rate)
                  else 0.0;
    var excess := if s.tokens + inflow > burst as real then s.tokens + inflow - burst as real else 0.0;
    Moment(s, ask, inflow, excess, Grant(s, ask, burst, rate), After(s, ask, burst, rate))
  }

  ghost predicate Fits(m: Moment, burst: nat, rate: real) {
    m == Made(m.before, m.ask, burst, rate) && m.ask.n > 0
  }

  /** No token appears or disappears: what flowed in was granted, found no room or is still there. */
  lemma AskAddsUp(m: Moment, burst: nat, rate: real)
    requires Fits(m, burst, rate) && m.before.tokens <= burst as real
    ensures m.before.tokens + m.inflow == m.granted as real + m.excess + m.after.tokens
    ensures m.excess >= 0.0
  {
  }

  lemma RefillInRange(s: Log, now: real, burst: nat, rate: real)
    requires rate >= 0.0 && 0.0 <= s.tokens <= burst as real
    ensures 0.0 <= Refilled(s, now, burst, rate).tokens <= burst as real
  {
    hide Flow;
    if now - s.refillAt > 0.0 {
      NotNegative(s.tokens, Flow(now - s.refillAt, rate), burst as real);
    }
  }

  lemma NotNegative(tokens: real, flow: real, burst: real)
    requires 0.0 <= tokens <= burst && flow >= 0.0
    ensures 0.0 <= (if tokens + flow > burst then burst else tokens + flow) <= burst
  {
  }

  /** An ask takes whole tokens, no more than there are or than it asks for. */
  lemma AskInRange(m: Moment, burst: nat, rate: real)
    requires Fits(m, burst, rate) && rate >= 0.0 && 0.0 <= m.before.tokens <= burst as real
    ensures 0 <= m.granted <= m.ask.n
    ensures 0.0 <= m.after.tokens && m.granted as real + m.after.tokens <= burst as real
  {
    RefillInRange(m.before, m.ask.now, burst, rate);
    var tokens := Refilled(m.before, m.ask.now, burst, rate).tokens;
    Granting(m, burst, rate, tokens);
    assert tokens.Floor as real <= tokens;
  }

  lemma Granting(m: Moment, burst: nat, rate: real, tokens: real)
    requires Fits(m, burst, rate) && tokens == Refilled(m.before, m.ask.now, burst, rate).tokens
    ensures m.granted == if tokens.Floor > m.ask.n then m.ask.n else tokens.Floor
    ensures m.after.tokens == tokens - m.granted as real
  {
    hide Refilled;
  }

  // ---------------------------------------------------------------------
  // A session's asks
  // ---------------------------------------------------------------------

  /** The asks of a session since it was created, one after the other. */
  ghost predicate IsRun(run: seq<Moment>, burst: nat, rate: real) {
    && (forall k {:trigger Fits(run[k], burst, rate)} :: 0 <= k < |run| ==> Fits(run[k], burst, rate))
    && (|run| > 0 ==> run[0].before.tokens == run[0].before.refillAt == 0.0)
    && (forall k :: 0 < k < |run| ==> run[k].before == run[k - 1].after)
  }

  /** The session's log is what its run has left. */
  ghost predicate Tells(run: seq<Moment>, s: Log, burst: nat, rate: real) {
    && IsRun(run, burst, rate)
    && (if run == [] then s.tokens == s.refillAt == 0.0 else s == run[|run| - 1].after)
  }

  function Granted(run: seq<Moment>, i: nat, j: nat): int
    requires i <= j <= |run|
  {
    if i == j then 0 else Granted(run, i, j - 1) + run[j - 1].granted
  }

  function Inflow(run: seq<Moment>, i: nat, j: nat): real
    requires i <= j <= |run|
  {
    if i == j then 0.0 else Inflow(run, i, j - 1) + run[j - 1].inflow
  }

  function Excess(run: seq<Moment>, i: nat, j: nat): real
    requires i <= j <= |run|
  {
    if i == j then 0.0 else Excess(run, i, j - 1) + run[j - 1].excess
  }

  /** The bucket never holds less than nothing, or more than the burst. */
  lemma {:induction false} TokensInRange(run: seq<Moment>, k: nat, burst: nat, rate: real)
    requires k < |run| && IsRun(run, burst, rate) && rate >= 0.0
    ensures 0.0 <= run[k].before.tokens <= burst as real
    ensures 0.0 <= run[k].after.tokens <= burst as real
    ensures 0 <= run[k].granted <= run[k].ask.n
  {
    if k > 0 {
      TokensInRange(run, k - 1, burst, rate);
    }
    AskInRange(run[k], burst, rate);
  }

  /** Over any stretch of a run, what was there and what flowed in was granted, found no room or is still there. */
  lemma {:induction false} TokensAddUp(run: seq<Moment>, i: nat, j: nat, burst: nat, rate: real)
    requires i < j <= |run| && IsRun(run, burst, rate) && rate >= 0.0
    ensures run[i].before.tokens + Inflow(run, i, j) == Granted(run, i, j) as real + Excess(run, i, j) + run[j - 1].after.tokens
    ensures Excess(run, i, j) >= 0.0
  {
    TokensInRange(run, j - 1, burst, rate);
    AskAddsUp(run[j - 1], burst, rate);
    if i + 1 < j {
      TokensAddUp(run, i, j - 1, burst, rate);
    }
  }

  /** The clock never goes back, and is never at Go's zero time. */
  ghost predicate InOrder(run: seq<Moment>) {
    && (forall k :: 0 <= k < |run| ==> run[k].ask.now > 0.0)
    && (forall k :: 0 < k < |run| ==> run[k - 1].ask.now <= run[k].ask.now)
  }

  lemma FlowsSince(m: Moment, burst: nat, rate: real)
    requires Fits(m, burst, rate) && (m.before.refillAt == 0.0 || m.ask.now >= m.before.refillAt)
    ensures m.after.refillAt == m.ask.now
    ensures m.before.refillAt != 0.0 ==> m.inflow == (m.ask.now - m.before.refillAt) * rate
  {
    if m.ask.now == m.before.refillAt {
      assert (m.ask.now - m.before.refillAt) * rate == 0.0;
    }
  }

  lemma {:induction false} RefilledNow(run: seq<Moment>, k: nat, burst: nat, rate: real)
    requires k < |run| && IsRun(run, burst, rate) && InOrder(run)
    ensures run[k].after.refillAt == run[k].ask.now
    ensures k > 0 ==> run[k].inflow == (run[k].ask.now - run[k - 1].ask.now) * rate
  {
    if k > 0 {
      RefilledNow(run, k - 1, burst, rate);
    }
    FlowsSince(run[k], burst, rate);
  }

  lemma Spread(x: real, y: real, rate: real)
    ensures x * rate + y * rate == (x + y) * rate
  {
  }

  lemma {:induction false} FlowsWithTime(run: seq<Moment>, i: nat, j: nat, burst: nat, rate: real)
    requires i < j <= |run| && IsRun(run, burst, rate) && InOrder(run)
    ensures Inflow(run, i + 1, j) == (run[j - 1].ask.now - run[i].ask.now) * rate
  {
    if i + 1 < j {
      FlowsWithTime(run, i, j - 1, burst, rate);
      RefilledNow(run, j - 1, burst, rate);
      Spread(run[j - 2].ask.now - run[i].ask.now, run[j - 1].ask.now - run[j - 2].ask.now, rate);
    }
  }

  lemma {:induction false} FirstGrant(run: seq<Moment>, i: nat, j: nat)
    requires i < j <= |run|
    ensures Granted(run, i, j) == run[i].granted + Granted(run, i + 1, j)
  {
    if i + 1 < j {
      FirstGrant(run, i, j - 1);
    }
  }

  /** In any stretch of asks a session is granted at most the burst and what flows in meanwhile. */
  lemma AtMostBurstAndRate(run: seq<Moment>, i: nat, j: nat, burst: nat, rate: real)
    requires i < j <= |run| && IsRun(run, burst, rate) && InOrder(run) && rate >= 0.0
    ensures Granted(run, i, j) as real <= burst as real + (run[j - 1].ask.now - run[i].ask.now) * rate
  {
    TokensInRange(run, i, burst, rate);
    AskInRange(run[i], burst, rate);
    FirstGrant(run, i, j);
    FlowsWithTime(run, i, j, burst, rate);
    if i + 1 < j {
      TokensAddUp(run, i + 1, j, burst, rate);
      TokensInRange(run, j - 1, burst, rate);
    }
  }

  /** And no less, rounding apart, if the last ask is not granted in full and nothing overflows meanwhile. */
  lemma NothingIsWithheld(run: seq<Moment>, i: nat, j: nat, burst: nat, rate: real)
    requires i < j <= |run| && IsRun(run, burst, rate) && InOrder(run) && rate >= 0.0
    requires Excess(run, i + 1, j) == 0.0 && run[j - 1].granted < run[j - 1].ask.n
    ensures Granted(run, i + 1, j) as real > run[i].after.tokens + (run[j - 1].ask.now - run[i].ask.now) * rate - 1.0
  {
    FlowsWithTime(run, i, j, burst, rate);
    LessThanOne(run[j - 1], burst, rate);
    if i + 1 < j {
      TokensAddUp(run, i + 1, j, burst, rate);
    }
  }

  /** A new session starts with a full bucket: its first ask is granted up to the burst. */
  lemma FirstAsk(run: seq<Moment>, burst: nat, rate: real)
    requires run != [] && IsRun(run, burst, rate)
    ensures run[0].granted == (if run[0].ask.n < burst then run[0].ask.n else burst)
    ensures run[0].after.tokens == burst as real - run[0].granted as real
  {
    hide Flow;
    assert Fits(run[0], burst, rate);
  }

  /**
   Every later ask is granted as many whole tokens as were left and have flowed in since, the burst at
   most, up to what it asks for; and what is not granted is left.
   */
  lemma LaterAsk(run: seq<Moment>, k: nat, burst: nat, rate: real)
    requires 0 < k < |run| && IsRun(run, burst, rate) && InOrder(run) && rate >= 0.0
    ensures var had := run[k - 1].after.tokens + (run[k].ask.now - run[k - 1].ask.now) * rate;
            var have := if had < burst as real then had else burst as real;
            && run[k].granted == (if run[k].ask.n < have.Floor then run[k].ask.n else have.Floor)
            && run[k].after.tokens == have - run[k].granted as real
  {
    TokensInRange(run, k, burst, rate);
    RefilledNow(run, k - 1, burst, rate);
    RefilledNow(run, k, burst, rate);
    LaterGrant(run[k], burst, rate);
  }

  lemma LaterGrant(m: Moment, burst: nat, rate: real)
    requires Fits(m, burst, rate) && m.before.refillAt != 0.0 && m.before.tokens <= burst as real
    ensures var had := m.before.tokens + m.inflow;
            var have := if had < burst as real then had else burst as real;
            && m.granted == (if m.ask.n < have.Floor then m.ask.n else have.Floor)
            && m.after.tokens == have - m.granted as real
  {
    hide Flow;
  }

  /** An ask that is not granted in full leaves less than one token. */
  lemma LessThanOne(m: Moment, burst: nat, rate: real)
    requires Fits(m, burst, rate) && m.granted < m.ask.n
    ensures m.after.tokens < 1.0
  {
  }

  // ---------------------------------------------------------------------
  // The recorder
  // ---------------------------------------------------------------------

  ghost predicate LeastActive(sessions: map<string, Log>, oldest: string) {
    oldest in sessions && forall id :: id in sessions ==> sessions[oldest].lastAt <= sessions[id].lastAt
  }

  /** The session is there; a new one takes the place of the least recently active if there is no room. */
  ghost predicate Opened(before: map<string, Log>, after: map<string, Log>, id: string, now: real, max: nat) {
    if id in before then after == before
    else if |before| < max then after == before[id := Log(now, 0.0, 0.0)]
    else exists oldest :: LeastActive(before, oldest) && after == (before - {oldest})[id := Log(now, 0.0, 0.0)]
  }

  /** A session goes only to make room, and no other has been inactive for longer. */
  lemma WhoGoes(before: map<string, Log>, after: map<string, Log>, id: string, now: real, max: nat)
    requires Opened(before, after, id, now, max) && |before| <= max
    ensures forall gone :: gone in before && gone !in after ==>
              && |before| >= max && id !in before && forall o :: o in before ==> before[gone].lastAt <= before[o].lastAt
    ensures |before| <= |after|
  {
    if id in before {
    } else if |before| < max {
      OneMore(before, id, Log(now, 0.0, 0.0));
    } else {
      var oldest :| LeastActive(before, oldest) && after == (before - {oldest})[id := Log(now, 0.0, 0.0)];
      OneLess(before, oldest);
      OneMore(before - {oldest}, id, Log(now, 0.0, 0.0));
    }
  }

  /** Each session's bucket is what its asks since it was created have left. */
  ghost predicate Kept(sessions: map<string, Log>, runs: map<string, seq<Moment>>, burst: nat, rate: real) {
    && sessions.Keys <= runs.Keys
    && forall id {:trigger Tells(runs[id], sessions[id], burst, rate)} :: id in sessions ==> Tells(runs[id], sessions[id], burst, rate)
  }

  lemma StillKept(sessions: map<string, Log>, runs: map<string, seq<Moment>>, gone: set<string>, burst: nat, rate: real)
    requires Kept(sessions, runs, burst, rate)
    ensures Kept(sessions - gone, runs, burst, rate)
  {
    forall id | id in sessions - gone ensures Tells(runs[id], (sessions - gone)[id], burst, rate) {
      assert Tells(runs[id], sessions[id], burst, rate);
    }
  }

  lemma KeptWith(sessions: map<string, Log>, runs: map<string, seq<Moment>>, id: string, s: Log, run: seq<Moment>, burst: nat, rate: real)
    requires Kept(sessions, runs, burst, rate) && Tells(run, s, burst, rate)
    ensures Kept(sessions[id := s], runs[id := run], burst, rate)
  {
    var after, ran := sessions[id := s], runs[id := run];
    forall o | o in after ensures Tells(ran[o], after[o], burst, rate) {
      if o != id {
        assert Tells(runs[o], sessions[o], burst, rate);
      }
    }
  }

  lemma AskKept(sessions: map<string, Log>, runs: map<string, seq<Moment>>, id: string, m: Moment, burst: nat, rate: real)
    requires Kept(sessions, runs, burst, rate) && id in sessions && m.before == sessions[id] && Fits(m, burst, rate) && rate >= 0.0
    ensures Kept(sessions[id := m.after], runs[id := runs[id] + [m]], burst, rate)
    ensures |sessions[id := m.after]| == |sessions|
    ensures 0 <= m.granted <= m.ask.n
  {
    assert Tells(runs[id], sessions[id], burst, rate);
    TellsMore(runs[id], m, burst, rate);
    KeptWith(sessions, runs, id, m.after, runs[id] + [m], burst, rate);
    Replaced(sessions, id, m.after);
  }

  lemma OneLess(sessions: map<string, Log>, id: string)
    requires id in sessions
    ensures |sessions - {id}| == |sessions| - 1
  {
    assert (sessions - {id}).Keys == sessions.Keys - {id};
  }

  lemma Replaced(sessions: map<string, Log>, id: string, s: Log)
    requires id in sessions
    ensures |sessions[id := s]| == |sessions|
  {
    assert sessions[id := s].Keys == sessions.Keys;
  }

  lemma OneMore(sessions: map<string, Log>, id: string, s: Log)
    requires id !in sessions
    ensures |sessions[id := s]| == |sessions| + 1
  {
    assert sessions[id := s].Keys == sessions.Keys + {id};
  }

  lemma TellsMore(run: seq<Moment>, m: Moment, burst: nat, rate: real)
    requires Tells(run, m.before, burst, rate) && Fits(m, burst, rate) && rate >= 0.0
    ensures Tells(run + [m], m.after, burst, rate)
    ensures 0 <= m.granted <= m.ask.n
  {
    var more := run + [m];
    forall k | 0 <= k < |more| ensures Fits(more[k], burst, rate) {
      assert k < |run| ==> Fits(run[k], burst, rate);
    }
    TokensInRange(more, |run|, burst, rate);
  }

  class Recorder {
    const maxSessions: nat
    const burst: nat
    const perSecond: real
    var sessions: map<string, Log>
    var dropped: int
    ghost var runs: map<string, seq<Moment>>

    /** Each retained session's bucket is what its asks since it was created have left. */
    ghost predicate Valid()
      reads this
    {
      && maxSessions > 0 && perSecond > 0.0 && |sessions| <= maxSessions
      && Kept(sessions, runs, burst, perSecond)
    }

    constructor (maxSessions: nat, burst: nat, perSecond: real)
      requires maxSessions > 0 && perSecond > 0.0
      ensures Valid() && sessions == map[] && dropped == 0
      ensures this.maxSessions == maxSessions && this.burst == burst && this.perSecond == perSecond
    {
      this.maxSessions, this.burst, this.perSecond := maxSessions, burst, perSecond;
      sessions, dropped, runs := map[], 0, map[];
    }

    /** The loop of sessionLocked */
    method Oldest() returns (oldest: string)
      requires sessions != map[]
      ensures LeastActive(sessions, oldest)
    {
      var left := sessions.Keys;
      oldest :| oldest in left;
      left := left - {oldest};
      while left != {}
        invariant left <= sessions.Keys && oldest in sessions
        invariant forall id :: id in sessions && id !in left ==> sessions[oldest].lastAt <= sessions[id].lastAt
        decreases left
      {
        var id :| id in left;
        left := left - {id};
        if sessions[id].lastAt < sessions[oldest].lastAt {
          oldest := id;
        }
      }
    }

    /** sessionLocked when it has to evict: the least recently active session goes. */
    method Evict()
      requires Valid() && sessions != map[]
      modifies this`sessions
      ensures Valid() && |sessions| == |old(sessions)| - 1
      ensures exists oldest :: LeastActive(old(sessions), oldest) && sessions == old(sessions) - {oldest}
    {
      var oldest := Oldest();
      OneLess(sessions, oldest);
      StillKept(sessions, runs, {oldest}, burst, perSecond);
      sessions := sessions - {oldest};
    }

    /** sessionLocked */
    method Session(id: string, now: real)
      requires Valid()
      modifies this`sessions, this`runs
      ensures Valid() && id in sessions
      ensures Opened(old(sessions), sessions, id, now, maxSessions)
      ensures id !in old(sessions) ==> sessions[id].refillAt == 0.0
      ensures forall gone :: gone in old(sessions) && gone !in sessions ==>
                && |old(sessions)| >= maxSessions && id !in old(sessions)
                && forall o :: o in old(sessions) ==> old(sessions)[gone].lastAt <= old(sessions)[o].lastAt
      ensures runs == if id in old(sessions) then old(runs) else old(runs)[id := []]
    {
      if id in sessions {
        return;
      }
      if |sessions| >= maxSessions {
        Evict();
      }
      OneMore(sessions, id, Log(now, 0.0, 0.0));
      KeptWith(sessions, runs, id, Log(now, 0.0, 0.0), [], burst, perSecond);
      sessions, runs := sessions[id := Log(now, 0.0, 0.0)], runs[id := []];
      WhoGoes(old(sessions), sessions, id, now, maxSessions);
    }

    /** The part of Admit between the session's lookup and the count of the dropped events. */
    method Take(was: Log, ask: Ask) returns (s: Log, granted: int, ghost m: Moment)
      requires ask.n > 0
      ensures Fits(m, burst, perSecond)
      ensures m.before == was && m.ask == ask && m.granted == granted && m.after == s
      ensures was.refillAt == 0.0 ==> granted == if ask.n < burst then ask.n else burst
    {
      s := was;
      if s.refillAt == 0.0 {
        s := s.(tokens := burst as real, refillAt := ask.now);
      } else {
        var elapsed := ask.now - s.refillAt;
        if elapsed > 0.0 {
          s := s.(tokens := s.tokens + elapsed * perSecond);
          if s.tokens > burst as real {
            s := s.(tokens := burst as real);
          }
          s := s.(refillAt := ask.now);
        }
      }
      assert s == Refilled(was, ask.now, burst, perSecond);
      granted := s.tokens.Floor;
      if granted > ask.n {
        granted := ask.n;
      }
      assert granted == Grant(was, ask, burst, perSecond);
      s := s.(tokens := s.tokens - granted as real);
      m := Made(was, ask, burst, perSecond);
    }

    /** Takes from the bucket of a session that is there. */
    method Draw(id: string, n: int, now: real) returns (granted: int, ghost m: Moment)
      requires Valid() && id in sessions && n > 0
      modifies this`sessions, this`runs
      ensures Valid() && 0 <= granted <= n
      ensures m.before == old(sessions)[id] && m.ask == Ask(n, now) && m.granted == granted
      ensures old(sessions)[id].refillAt == 0.0 ==> granted == if n < burst then n else burst
      ensures sessions == old(sessions)[id := m.after] && runs == old(runs)[id := old(runs)[id] + [m]]
    {
      var s;
      s, granted, m := Take(sessions[id], Ask(n, now));
      AskKept(sessions, runs, id, m, burst, perSecond);
      sessions, runs := sessions[id := s], runs[id := runs[id] + [m]];
    }

    /** What was not granted counts as dropped. */
    method Deny(denied: int)
      requires Valid() && denied >= 0
      modifies this`dropped
      ensures Valid() && dropped == old(dropped) + denied
    {
      hide Kept;
      if denied > 0 {
        dropped := dropped + denied;
      }
    }

    /**
     Admit: of n events that many are granted, and the rest are counted as dropped. The session, new
     or not, is as `m`, the ask as it happened, has left it, and the other sessions are as in `room`.
     */
    method Admit(id: string, n: int, now: real) returns (granted: int, ghost room: map<string, Log>, ghost m: Moment)
      requires Valid()
      modifies this
      ensures Valid()
      ensures id == "" || n <= 0 ==> granted == 0 && sessions == old(sessions) && dropped == old(dropped) && runs == old(runs)
      ensures id != "" && n > 0 ==> 0 <= granted && granted + (dropped - old(dropped)) == n
      ensures id != "" && n > 0 && id !in old(sessions) ==> granted == if n < burst then n else burst
      ensures id != "" && n > 0 ==> Opened(old(sessions), room, id, now, maxSessions) && sessions == room[id := m.after]
      ensures id != "" && n > 0 ==> id in room
      ensures forall gone :: gone in old(sessions) && gone !in room ==>
                && |old(sessions)| >= maxSessions && id !in old(sessions)
                && forall o :: o in old(sessions) ==> old(sessions)[gone].lastAt <= old(sessions)[o].lastAt
      ensures id != "" && n > 0 ==> m.ask == Ask(n, now) && m.granted == granted
      ensures id != "" && n > 0 ==> runs == old(runs)[id := old(if id in sessions then runs[id] else []) + [m]]
    {
      room, m := sessions, Moment(Log(0.0, 0.0, 0.0), Ask(n, now), 0.0, 0.0, 0, Log(0.0, 0.0, 0.0));
      if id == "" || n <= 0 {
        return 0, room, m;
      }
      granted, room, m := AdmitSome(id, n, now);
    }

    /** Admit, of a session that is named and asks for something. */
    method AdmitSome(id: string, n: int, now: real) returns (granted: int, ghost room: map<string, Log>, ghost m: Moment)
      requires Valid() && n > 0
      modifies this
      ensures Valid() && 0 <= granted && granted + (dropped - old(dropped)) == n
      ensures id !in old(sessions) ==> granted == if n < burst then n else burst
      ensures Opened(old(sessions), room, id, now, maxSessions) && id in room && sessions == room[id := m.after]
      ensures forall gone :: gone in old(sessions) && gone !in room ==>
                && |old(sessions)| >= maxSessions && id !in old(sessions)
                && forall o :: o in old(sessions) ==> old(sessions)[gone].lastAt <= old(sessions)[o].lastAt
      ensures m.ask == Ask(n, now) && m.granted == granted
      ensures runs == old(runs)[id := old(if id in sessions then runs[id] else []) + [m]]
    {
      hide Opened, Kept, LeastActive, Fits, Made, Tells, IsRun, Refilled, Grant;
      EachHasARun(sessions, runs, burst, perSecond);
      Session(id, now);
      room := sessions;
      granted, m := Draw(id, n, now);
      RunsAre(old(runs), id, if id in old(sessions) then old(runs)[id] else [], m);
      Deny(n - granted);
    }
  }

  lemma EachHasARun(sessions: map<string, Log>, runs: map<string, seq<Moment>>, burst: nat, rate: real)
    requires Kept(sessions, runs, burst, rate)
    ensures sessions.Keys <= runs.Keys
  {
  }

  lemma RunsAre(runs: map<string, seq<Moment>>, id: string, run: seq<Moment>, m: Moment)
    ensures runs[id := run][id := run + [m]] == runs[id := run + [m]]
    ensures id in runs && runs[id] == run ==> runs[id := run] == runs
  {
  }
}
