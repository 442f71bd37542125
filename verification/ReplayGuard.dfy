/**
 The end of Discord request verification (internal/discordbot/verify.go: Verify from the timestamp
 window on, and remember). Times are nanoseconds; an entry's key stands for the hash of a signature.
 */
module ReplayGuard {
  import opened Collections

  const Second := 1_000_000_000
  const Minute := 60 * Second
  const DefaultWindow := 5 * Minute

  /** The range of Go's time.Duration and of a Unix second count. */
  const MinInt64 := -0x8000_0000_0000_0000
  const MaxInt64 := 0x7FFF_FFFF_FFFF_FFFF

  /** Seconds from Go's year 1 to 1970. */
  const UnixToInternal := 62_135_596_800

  const MaxReplayEntries := 100_000

  datatype Error = ErrBadSignature | ErrStaleTimestamp | ErrReplay
  datatype Outcome = Accepted | Rejected(error: Error)

  /** int64 arithmetic wraps around. */
  function Wrap(n: int): (r: int)
    ensures MinInt64 <= r <= MaxInt64
    ensures MinInt64 <= n <= MaxInt64 ==> r == n
  {
    (n - MinInt64) % 0x1_0000_0000_0000_0000 + MinInt64
  }

  /** time.Unix(secs, 0), as nanoseconds since 1970: the second count since year 1 is an int64. */
  function Unix(secs: int): (t: int)
    ensures MinInt64 <= secs <= MaxInt64 - 62_135_596_800 ==> t == secs * 1_000_000_000
    ensures MaxInt64 - 62_135_596_800 < secs <= MaxInt64 ==> t == (secs - 0x1_0000_0000_0000_0000) * 1_000_000_000
  {
    (Wrap(secs + UnixToInternal) - UnixToInternal) * Second
  }

  /** Time.Sub: a difference that does not fit is the nearest duration. */
  function Sub(t: int, u: int): (d: int)
    ensures MinInt64 <= d <= MaxInt64
  {
    if t - u < MinInt64 then MinInt64 else if t - u > MaxInt64 then MaxInt64 else t - u
  }

  /** The skew Verify compares with the window: the negation of the least duration is itself. */
  function Skew(now: int, secs: int): int {
    var skew := Sub(now, Unix(secs));
    if skew < 0 then Wrap(-skew) else skew
  }

  /** The timestamp is so far ahead that its distance does not fit a duration. */
  predicate FarAhead(now: int, secs: int) {
    now - Unix(secs) <= MinInt64
  }

  /** Either within the window, or so far ahead that the comparison is fooled. */
  lemma FreshExactly(now: int, secs: int, window: int)
    requires 0 < 2 * window <= MaxInt64
    ensures Skew(now, secs) <= window <==> FarAhead(now, secs) || -window <= now - Unix(secs) <= window
  {
  }

  type Key = string

  datatype Memory = Memory(seen: map<Key, int>, lastPrune: int)

  function Pruned(seen: map<Key, int>, now: int): map<Key, int> {
    map k | k in seen && now <= seen[k] :: seen[k]
  }

  /** remember: prune when the table is full or a minute has passed, then refuse or record. */
  function Remembered(s: Memory, id: Key, now: int, window: int): (Memory, Outcome) {
    var s1 :=
      if |s.seen| >= MaxReplayEntries || Sub(now, s.lastPrune) > Minute then Memory(Pruned(s.seen, now), now) else s;
    if id in s1.seen && now <= s1.seen[id] then (s1, Rejected(ErrReplay))
    else if |s1.seen| >= MaxReplayEntries then (s1, Rejected(ErrReplay))
    else (s1.(seen := s1.seen[id := now + 2 * window]), Accepted)
  }

  /** A request whose signature verified, with the time it is checked at. */
  datatype Request = Request(id: Key, secs: int, now: int)

  function Verified(s: Memory, r: Request, window: int): (Memory, Outcome) {
    if r.secs <= 0 then (s, Rejected(ErrBadSignature))
    else if Skew(r.now, r.secs) > window then (s, Rejected(ErrStaleTimestamp))
    else Remembered(s, r.id, r.now, window)
  }

  /** The history of a Verifier is for the proof: the requests it was asked about and what it answered. */
  class Verifier {
    var seen: map<Key, int>
    var lastPrune: int
    const window: int
    ghost const zero: int
    ghost var past: seq<Request>
    ghost var answers: seq<Outcome>

    /** A window that is not positive means the default, five minutes; lastPrune starts at Go's zero time. */
    constructor (configured: int, zero: int)
      ensures Valid() && past == [] && seen == map[] && lastPrune == zero
      ensures window == if configured > 0 then configured else 300_000_000_000
    {
      seen, lastPrune, this.zero := map[], zero, zero;
      past, answers := [], [];
      window := if configured > 0 then configured else DefaultWindow;
    }

    function Contents(): Memory
      reads this
    {
      Memory(seen, lastPrune)
    }

    ghost predicate Valid()
      reads this
    {
      && window > 0 && |answers| == |past|
      && Contents() == After(Memory(map[], zero), past, window) && IsRun(zero, past, answers, window)
    }

    /** The loop of remember over the expired entries. */
    method Prune(now: int)
      modifies this`seen
      ensures seen == Pruned(old(seen), now)
    {
      var left := seen.Keys;
      while left != {}
        invariant left <= seen.Keys <= old(seen).Keys
        invariant forall k :: k in old(seen) && k !in seen ==> now > old(seen)[k]
        invariant forall k :: k in seen ==> seen[k] == old(seen)[k] && (k in left || now <= seen[k])
        decreases left
      {
        var k :| k in left;
        left := left - {k};
        if now > seen[k] {
          seen := seen - {k};
        }
      }
    }

    method Remember(id: Key, now: int) returns (o: Outcome)
      modifies `seen, `lastPrune
      ensures (Contents(), o) == Remembered(old(Contents()), id, now, window)
      ensures var due := |old(seen)| >= 100_000 || now - old(lastPrune) > 60_000_000_000;
              && lastPrune == (if due then now else old(lastPrune))
              && (if due then forall k :: k in seen ==> now <= seen[k] || (o == Accepted && k == id)
                  else old(seen).Keys <= seen.Keys)
    {
      if |seen| >= MaxReplayEntries || Sub(now, lastPrune) > Minute {
        Prune(now);
        lastPrune := now;
      }
      if id in seen && now <= seen[id] {
        return Rejected(ErrReplay);
      }
      if |seen| >= MaxReplayEntries {
        return Rejected(ErrReplay);
      }
      seen := seen[id := now + 2 * window];
      o := Accepted;
    }

    /**
     Verify. While the clock does not go back, of requests whose timestamps are within the window of the
     clock, or 2^63 nanoseconds ahead of it, exactly those pass whose id was not accepted within the last
     twice the window, as long as fewer than 100000 ids were.
     */
    method Verify(r: Request) returns (o: Outcome)
      requires Valid()
      modifies this
      ensures Valid() && past == old(past) + [r] && answers == old(answers) + [o]
      ensures (Contents(), o) == Verified(old(Contents()), r, window)
      ensures r.secs <= 0 ==> o == Rejected(ErrBadSignature)
      ensures ClockRuns(past) && 2 * window <= MaxInt64 && 0 < r.secs <= MaxInt64 ==>
                var ahead := Unix(r.secs) - r.now;
                var live := set i | 0 <= i < |past| - 1 && answers[i] == Accepted && r.now <= past[i].now + 2 * window :: past[i].id;
                o == if !(-window <= ahead <= window) && ahead < 0x8000_0000_0000_0000 then Rejected(ErrStaleTimestamp)
                     else if r.id in live || |live| >= 100_000 then Rejected(ErrReplay)
                     else Accepted
    {
      hide Verified, Remembered, After, IsRun, Unix, Pruned, Skew;
      o := Check(r);
      RunGrows(zero, past, answers, r, o, window);
      past, answers := past + [r], answers + [o];
      if ClockRuns(past) && 2 * window <= MaxInt64 && 0 < r.secs <= MaxInt64 {
        AnswerIs(zero, past, answers, |answers| - 1, window);
      }
    }

    /** The tests of Verify. */
    method Check(r: Request) returns (o: Outcome)
      modifies `seen, `lastPrune
      ensures (Contents(), o) == Verified(old(Contents()), r, window)
      ensures r.secs <= 0 ==> o == Rejected(ErrBadSignature)
    {
      if r.secs <= 0 {
        return Rejected(ErrBadSignature);
      }
      var skew := Sub(r.now, Unix(r.secs));
      if skew < 0 {
        skew := Wrap(-skew);
      }
      if skew > window {
        return Rejected(ErrStaleTimestamp);
      }
      o := Remember(r.id, r.now);
    }
  }

  // ---------------------------------------------------------------------
  // Runs
  // ---------------------------------------------------------------------

  function After(s: Memory, rs: seq<Request>, window: int): Memory
    decreases |rs|
  {
    if rs == [] then s else Verified(After(s, rs[..|rs| - 1], window), rs[|rs| - 1], window).0
  }

  /** Whether the i-th request of a run is accepted. */
  predicate AcceptedAt(s: Memory, rs: seq<Request>, i: nat, window: int)
    requires i < |rs|
  {
    Verified(After(s, rs[..i], window), rs[i], window).1 == Accepted
  }

  /** The answers to a run of requests, beginning with an empty memory. */
  ghost predicate IsRun(zero: int, rs: seq<Request>, answers: seq<Outcome>, window: int) {
    |answers| == |rs| && forall j :: 0 <= j < |rs| ==> answers[j] == Verified(After(Memory(map[], zero), rs[..j], window), rs[j], window).1
  }

  lemma RunGrows(zero: int, rs: seq<Request>, answers: seq<Outcome>, r: Request, o: Outcome, window: int)
    requires IsRun(zero, rs, answers, window) && o == Verified(After(Memory(map[], zero), rs, window), r, window).1
    ensures IsRun(zero, rs + [r], answers + [o], window)
    ensures After(Memory(map[], zero), rs + [r], window) == Verified(After(Memory(map[], zero), rs, window), r, window).0
  {
    hide Verified;
    assert (rs + [r])[..|rs|] == rs;
    forall j | 0 <= j < |rs| ensures (rs + [r])[..j] == rs[..j] {
    }
  }

  ghost predicate ClockRuns(rs: seq<Request>) {
    forall i, j :: 0 <= i <= j < |rs| ==> rs[i].now <= rs[j].now
  }

  /** An entry that has not expired stays, whatever else is verified. */
  lemma StaysRemembered(s: Memory, r: Request, id: Key, window: int)
    requires id in s.seen && r.now <= s.seen[id] && 0 < window
    ensures var s' := Verified(s, r, window).0; id in s'.seen && s'.seen[id] == s.seen[id]
  {
  }

  lemma JustAccepted(s: Memory, rs: seq<Request>, i: nat, window: int)
    requires i < |rs| && AcceptedAt(s, rs, i, window)
    ensures var seen := After(s, rs[..i + 1], window).seen;
            rs[i].id in seen && seen[rs[i].id] == rs[i].now + 2 * window
  {
    hide Skew, Pruned;
    assert rs[..i + 1][..i] == rs[..i];
  }

  lemma {:induction false} RememberedUntil(s: Memory, rs: seq<Request>, i: nat, j: nat, window: int)
    requires i < j <= |rs| && ClockRuns(rs) && 0 < window
    requires AcceptedAt(s, rs, i, window)
    requires forall k :: i < k < j ==> rs[k].now <= rs[i].now + 2 * window
    ensures var seen := After(s, rs[..j], window).seen;
            rs[i].id in seen && seen[rs[i].id] == rs[i].now + 2 * window
  {
    hide Verified, AcceptedAt;
    if j == i + 1 {
      JustAccepted(s, rs, i, window);
    } else {
      RememberedUntil(s, rs, i, j - 1, window);
      assert rs[..j][..j - 1] == rs[..j - 1];
      StaysRemembered(After(s, rs[..j - 1], window), rs[j - 1], rs[i].id, window);
    }
  }

  /** Every entry is of an accepted request, and expires twice the window after it. */
  lemma {:induction false} EntriesAreAcceptances(zero: int, rs: seq<Request>, answers: seq<Outcome>, j: nat, id: Key, window: int)
    returns (i: nat)
    requires IsRun(zero, rs, answers, window) && j <= |rs| && id in After(Memory(map[], zero), rs[..j], window).seen
    ensures i < j && answers[i] == Accepted && rs[i].id == id
    ensures After(Memory(map[], zero), rs[..j], window).seen[id] == rs[i].now + 2 * window
  {
    hide Skew;
    assert j > 0;
    var before := After(Memory(map[], zero), rs[..j - 1], window);
    assert rs[..j][..j - 1] == rs[..j - 1];
    if answers[j - 1] == Accepted && rs[j - 1].id == id {
      i := j - 1;
    } else {
      i := EntriesAreAcceptances(zero, rs, answers, j - 1, id, window);
    }
  }

  /** What is remembered and has not expired at a moment is what was accepted within twice the window before it. */
  lemma LiveEntries(zero: int, rs: seq<Request>, answers: seq<Outcome>, j: nat, window: int)
    requires IsRun(zero, rs, answers, window) && j < |rs| && ClockRuns(rs) && 0 < window
    ensures Pruned(After(Memory(map[], zero), rs[..j], window).seen, rs[j].now).Keys
            == set i | 0 <= i < j && answers[i] == Accepted && rs[j].now <= rs[i].now + 2 * window :: rs[i].id
  {
    hide Verified, After;
    var seen := After(Memory(map[], zero), rs[..j], window).seen;
    var live := set i | 0 <= i < j && answers[i] == Accepted && rs[j].now <= rs[i].now + 2 * window :: rs[i].id;
    forall id | id in Pruned(seen, rs[j].now) ensures id in live {
      var i := EntriesAreAcceptances(zero, rs, answers, j, id, window);
    }
    forall i | 0 <= i < j && answers[i] == Accepted && rs[j].now <= rs[i].now + 2 * window
      ensures rs[i].id in Pruned(seen, rs[j].now)
    {
      RememberedUntil(Memory(map[], zero), rs, i, j, window);
    }
  }

  /** remember refuses what has not expired, and anything new while 100000 entries have not. */
  lemma RememberedIff(s: Memory, id: Key, now: int, window: int)
    ensures var live := Pruned(s.seen, now).Keys;
            Remembered(s, id, now, window).1 == if id in live || |live| >= 100_000 then Rejected(ErrReplay) else Accepted
  {
    SubsetSize(Pruned(s.seen, now).Keys, s.seen.Keys);
  }

  /**
   The answer to every request of every run that begins with an empty memory, in terms of the earlier
   answers and of the times alone.
   */
  lemma AnswerIs(zero: int, rs: seq<Request>, answers: seq<Outcome>, j: nat, window: int)
    requires IsRun(zero, rs, answers, window) && j < |rs| && ClockRuns(rs)
    requires 0 < 2 * window <= MaxInt64 && MinInt64 <= rs[j].secs <= MaxInt64
    ensures var ahead := Unix(rs[j].secs) - rs[j].now;
            var live := set i | 0 <= i < j && answers[i] == Accepted && rs[j].now <= rs[i].now + 2 * window :: rs[i].id;
            answers[j] ==
              if rs[j].secs <= 0 then Rejected(ErrBadSignature)
              else if !(-window <= ahead <= window) && ahead < 0x8000_0000_0000_0000 then Rejected(ErrStaleTimestamp)
              else if rs[j].id in live || |live| >= 100_000 then Rejected(ErrReplay)
              else Accepted
  {
    hide Skew, Pruned, Remembered, After, IsRun;
    assert answers[j] == Verified(After(Memory(map[], zero), rs[..j], window), rs[j], window).1 by {
      AnswerOfRun(zero, rs, answers, j, window);
    }
    FreshExactly(rs[j].now, rs[j].secs, window);
    LiveEntries(zero, rs, answers, j, window);
    RememberedIff(After(Memory(map[], zero), rs[..j], window), rs[j].id, rs[j].now, window);
  }

  lemma AnswerOfRun(zero: int, rs: seq<Request>, answers: seq<Outcome>, j: nat, window: int)
    requires IsRun(zero, rs, answers, window) && j < |rs|
    ensures |answers| == |rs| && answers[j] == Verified(After(Memory(map[], zero), rs[..j], window), rs[j], window).1
  {
    hide Verified, After;
  }

  /**
   No request passes twice: in any run with a clock that never goes back, a second acceptance of the
   same signature and timestamp means the timestamp was too far ahead to measure at the first one.
   */
  lemma NeverAcceptedTwice(s: Memory, rs: seq<Request>, i: nat, j: nat, window: int)
    requires i < j < |rs| && ClockRuns(rs) && 0 < 2 * window <= MaxInt64
    requires rs[i].id == rs[j].id && rs[i].secs == rs[j].secs
    requires AcceptedAt(s, rs, i, window) && AcceptedAt(s, rs, j, window)
    ensures FarAhead(rs[i].now, rs[i].secs)
  {
    FreshExactly(rs[i].now, rs[i].secs, window);
    FreshExactly(rs[j].now, rs[j].secs, window);
    if !FarAhead(rs[i].now, rs[i].secs) {
      assert rs[i].now <= rs[j].now;
      assert rs[j].now <= rs[i].now + 2 * window;
      forall k | i < k < j ensures rs[k].now <= rs[i].now + 2 * window {
        assert rs[k].now <= rs[j].now;
      }
      RememberedUntil(s, rs, i, j, window);
    }
  }

  lemma PrunedIsSmaller(seen: map<Key, int>, id: Key, now: int)
    requires id in seen && now > seen[id]
    ensures |Pruned(seen, now)| < |seen|
  {
    assert Pruned(seen, now).Keys <= seen.Keys - {id};
    SubsetSize(Pruned(seen, now).Keys, seen.Keys - {id});
  }

  /** The table never outgrows its cap. */
  lemma {:induction false} NeverOverfull(s: Memory, rs: seq<Request>, window: int)
    requires |s.seen| <= MaxReplayEntries
    ensures |After(s, rs, window).seen| <= MaxReplayEntries
    decreases |rs|
  {
    if rs != [] {
      var before := After(s, rs[..|rs| - 1], window);
      NeverOverfull(s, rs[..|rs| - 1], window);
      var r := rs[|rs| - 1];
      SubsetSize(Pruned(before.seen, r.now).Keys, before.seen.Keys);
    }
  }

  /** Exactly when an accepted request can pass again later, nothing else having been verified since. */
  lemma PassesAgainIff(s: Memory, r: Request, window: int)
    requires 0 < 2 * window <= MaxInt64
    requires Verified(s, r, window).1 == Accepted
    ensures (exists later :: later >= r.now && Verified(Verified(s, r, window).0, r.(now := later), window).1 == Accepted)
            <==> FarAhead(r.now, r.secs)
  {
    FreshExactly(r.now, r.secs, window);
    if FarAhead(r.now, r.secs) {
      // At the timestamp itself the request is fresh again, and long forgotten.
      var later := Unix(r.secs);
      FreshExactly(later, r.secs, window);
      var s1 := Verified(s, r, window).0;
      assert later > s1.seen[r.id];
      PrunedIsSmaller(s1.seen, r.id, later);
      assert Verified(s1, r.(now := later), window).1 == Accepted;
    } else {
      forall later | later >= r.now ensures Verified(Verified(s, r, window).0, r.(now := later), window).1 != Accepted {
        FreshExactly(later, r.secs, window);
      }
    }
  }

  /** Such a timestamp: in the year 2264, while the clock still says 1970. */
  lemma FarAheadIsAccepted()
    ensures FarAhead(0, 9_300_000_000)
    ensures Verified(Memory(map[], 0), Request("x", 9_300_000_000, 0), DefaultWindow).1 == Accepted
  {
    FreshExactly(0, 9_300_000_000, DefaultWindow);
  }
}
