/**
 The sliding-window limiter (internal/auth/ratelimit.go). A limiter belongs to one middleware, so
 its limit and its window never change. Times are integers. A key's hits are a Go slice, a buffer
 and a length, which allow filters in place and then appends to.
 */
module RateLimit {

  datatype Call = Call(key: string, now: int)

  /** The hits of s that are later than cut, in their order. */
  function Recent(s: seq<int>, cut: int): (r: seq<int>)
    ensures |r| <= |s|
  {
    RecentTo(s, |s|, cut)
  }

  /** Those among the first i. */
  function RecentTo(s: seq<int>, i: nat, cut: int): (r: seq<int>)
    requires i <= |s|
    ensures |r| <= i
  {
    if i == 0 then []
    else
      var before := RecentTo(s, i - 1, cut);
      if s[i - 1] > cut then before + [s[i - 1]] else before
  }

  /** How many of the times are in (a, b]. */
  function InSpan(times: seq<int>, a: int, b: int): nat {
    if times == [] then 0
    else InSpan(times[..|times| - 1], a, b) + (if a < times[|times| - 1] <= b then 1 else 0)
  }

  /** The hits kept for a key after a run of calls. */
  function Live(calls: seq<Call>, key: string, n: int, window: int): seq<int> {
    if calls == [] then []
    else
      var c, before := calls[|calls| - 1], Live(calls[..|calls| - 1], key, n, window);
      if c.key != key then before else After(before, c.now, n, window)
  }

  /** What a call leaves of a key's hits. */
  function After(hits: seq<int>, now: int, n: int, window: int): seq<int> {
    var kept := Recent(hits, now - window);
    if |kept| < n then kept + [now] else kept
  }

  /** Whether the call c, made after the others, is one for the key that gets through. */
  predicate Passes(before: seq<Call>, c: Call, key: string, n: int, window: int) {
    c.key == key && |Recent(Live(before, key, n, window), c.now - window)| < n
  }

  /** The times at which the run admitted a call for the key. */
  function Admitted(calls: seq<Call>, key: string, n: int, window: int): seq<int> {
    if calls == [] then []
    else
      var c, before := calls[|calls| - 1], calls[..|calls| - 1];
      var sofar := Admitted(before, key, n, window);
      if Passes(before, c, key, n, window) then sofar + [c.now] else sofar
  }

  // ---------------------------------------------------------------------
  // The limiter
  // ---------------------------------------------------------------------

  datatype Slice = Slice(buf: array<int>, len: nat)

  /** Slices fit their buffers, and no two keys share one. */
  ghost predicate Apart(hits: map<string, Slice>, owner: map<array<int>, string>) {
    forall k :: k in hits ==>
      hits[k].len <= hits[k].buf.Length && hits[k].buf in owner && owner[hits[k].buf] == k
  }

  lemma StillApart(hits: map<string, Slice>, owner: map<array<int>, string>, key: string, stored: Slice)
    requires Apart(hits, owner) && stored.len <= stored.buf.Length && (stored.buf in owner ==> owner[stored.buf] == key)
    ensures Apart(hits[key := stored], owner[stored.buf := key])
  {
  }

  /** The loop over arr: kept shares its buffer, and is never ahead of what is still to be read. */
  method Filter(buf: array<int>, len: nat, cut: int) returns (kept: nat)
    requires len <= buf.Length
    modifies buf
    ensures kept <= len
    ensures buf[..kept] == Recent(old(buf[..len]), cut)
  {
    kept := 0;
    for i := 0 to len
      invariant kept <= i
      invariant buf[..kept] == RecentTo(old(buf[..len]), i, cut)
      invariant buf[i..] == old(buf[i..])
    {
      assert buf[i] == buf[i..][0] == old(buf[i..])[0];
      var t := buf[i];
      if t > cut {
        buf[kept] := t;
        kept := kept + 1;
      }
      assert buf[i + 1..] == old(buf[i..])[1..];
    }
  }

  /** append: in the buffer while it has room, in a new one otherwise. */
  method Append(s: Slice, t: int) returns (r: Slice)
    requires s.len <= s.buf.Length
    modifies s.buf
    ensures r.len <= r.buf.Length && (r.buf == s.buf || fresh(r.buf))
    ensures r.buf[..r.len] == old(s.buf[..s.len]) + [t]
  {
    var buf := s.buf;
    if s.len == buf.Length {
      buf := new int[2 * s.len + 1];
      for i := 0 to s.len
        invariant buf[..i] == s.buf[..i] && s.buf[..] == old(s.buf[..])
      {
        buf[i] := s.buf[i];
      }
    }
    buf[s.len] := t;
    r := Slice(buf, s.len + 1);
  }

  /** The slice part of allow: filter, then append if there is room under the limit. */
  method Hit(arr: Slice, now: int, n: int, window: int) returns (ok: bool, stored: Slice)
    requires arr.len <= arr.buf.Length
    modifies arr.buf
    ensures stored.len <= stored.buf.Length && (stored.buf == arr.buf || fresh(stored.buf))
    ensures stored.buf[..stored.len] == After(old(arr.buf[..arr.len]), now, n, window)
    ensures ok == (|Recent(old(arr.buf[..arr.len]), now - window)| < n)
  {
    var kept := Filter(arr.buf, arr.len, now - window);
    stored := Slice(arr.buf, kept);
    ok := kept < n;
    if ok {
      stored := Append(stored, now);
    }
  }

  class Limiter {
    const n: int
    const window: int
    var hits: map<string, Slice>
    /** The calls so far, and which of them got through. */
    ghost var calls: seq<Call>
    ghost var passed: seq<bool>
    ghost var owner: map<array<int>, string>

    ghost predicate Valid()
      reads this, owner.Keys
    {
      && Apart(hits, owner)
      && KeptExcept({})
      && Answered(calls, passed, n, window)
    }

    /** Every key but those has its live hits in its slice. */
    ghost predicate KeptExcept(keys: set<string>)
      requires Apart(hits, owner)
      reads this, owner.Keys
    {
      && (forall k :: k in hits && k !in keys ==> hits[k].buf[..hits[k].len] == Live(calls, k, n, window))
      && (forall k :: k !in hits && k !in keys ==> Live(calls, k, n, window) == [])
    }

    constructor (n: int, window: int)
      ensures Valid() && calls == [] && passed == [] && hits == map[] && owner == map[]
      ensures this.n == n && this.window == window
    {
      this.n, this.window := n, window;
      hits, calls, passed, owner := map[], [], [], map[];
    }

    /** allow up to the point where the key's new slice is stored. */
    method Count(key: string, now: int) returns (ok: bool, stored: Slice)
      requires Valid()
      modifies owner.Keys
      ensures Apart(hits, owner) && KeptExcept({key})
      ensures stored.len <= stored.buf.Length
      ensures if stored.buf in owner then owner[stored.buf] == key else fresh(stored.buf)
      ensures stored.buf[..stored.len] == After(Live(calls, key, n, window), now, n, window)
      ensures ok == Passes(calls, Call(key, now), key, n, window)
    {
      var arr: Slice;
      if key in hits {
        arr := hits[key];
      } else {
        var none := new int[0];
        arr := Slice(none, 0);
      }
      assert arr.buf[..arr.len] == Live(calls, key, n, window);
      ok, stored := Hit(arr, now, n, window);
    }

    /**
     allow: whether the call may pass. Admitted or not, the key's expired hits are forgotten. While the
     clock does not go back, a call passes if and only if fewer than n of the key's did within the window.
     */
    method Allow(key: string, now: int) returns (ok: bool)
      requires Valid()
      modifies this, owner.Keys
      ensures Valid() && fresh(owner.Keys - old(owner.Keys))
      ensures calls == old(calls) + [Call(key, now)] && passed == old(passed) + [ok]
      ensures |old(passed)| == |old(calls)| && ok == Passes(old(calls), Call(key, now), key, n, window)
      ensures InOrder(calls, 0) ==>
                (ok <==> |set i: nat | i < |old(calls)| && old(passed)[i] && old(calls)[i].key == key
                                       && now - window < old(calls)[i].now| < n)
    {
      hide Passes, Live, After, Answered, InOrder, Since;
      PassesIff(calls, passed, Call(key, now), n, window);
      assert InOrder(calls + [Call(key, now)], 0) ==>
          (Passes(calls, Call(key, now), key, n, window)
           <==> |set i: nat | i < |calls| && passed[i] && calls[i].key == key && now - window < calls[i].now| < n) by {
        SinceIs(calls, passed, key, now - window);
      }
      var stored: Slice;
      ok, stored := Count(key, now);
      AnswersGrow(calls, passed, Call(key, now), ok, n, window);
      Store(key, now, stored);
      passed := passed + [ok];
    }

    /** l.hits[key] = kept */
    method Store(key: string, now: int, stored: Slice)
      requires Apart(hits, owner) && KeptExcept({key}) && stored.len <= stored.buf.Length
      requires stored.buf in owner ==> owner[stored.buf] == key
      requires stored.buf[..stored.len] == After(Live(calls, key, n, window), now, n, window)
      modifies `hits, `owner, `calls
      ensures owner == old(owner)[stored.buf := key] && Apart(hits, owner) && KeptExcept({})
      ensures calls == old(calls) + [Call(key, now)]
    {
      hide Passes, Live, After;
      ghost var before, were := calls, hits;
      EachAfter(before, Call(key, now), n, window);
      StillApart(hits, owner, key, stored);
      hits, owner, calls := hits[key := stored], owner[stored.buf := key], calls + [Call(key, now)];
      forall k | k in hits ensures hits[k].buf[..hits[k].len] == Live(calls, k, n, window) {
        if k != key {
          assert were[k].buf[..were[k].len] == Live(before, k, n, window);
        }
      }
    }
  }

  // ---------------------------------------------------------------------
  // No span of the window's length has more than n admissions
  // ---------------------------------------------------------------------

  /** No call is stamped more than lag before an earlier one. */
  ghost predicate InOrder(calls: seq<Call>, lag: nat) {
    forall i, j :: 0 <= i < j < |calls| ==> calls[i].now - lag <= calls[j].now
  }

  lemma OneMore(s: seq<int>, t: int, a: int, b: int)
    ensures InSpan(s + [t], a, b) == InSpan(s, a, b) + if a < t <= b then 1 else 0
  {
    assert (s + [t])[..|s|] == s;
  }

  lemma {:induction false} SamePrefix(s: seq<int>, r: seq<int>, i: nat, cut: int)
    requires i <= |s| <= |r| && r[..|s|] == s
    ensures RecentTo(r, i, cut) == RecentTo(s, i, cut)
  {
    if i > 0 {
      SamePrefix(s, r, i - 1, cut);
      assert r[i - 1] == s[i - 1];
    }
  }

  lemma RecentOfMore(s: seq<int>, t: int, cut: int)
    ensures Recent(s + [t], cut) == if t > cut then Recent(s, cut) + [t] else Recent(s, cut)
  {
    SamePrefix(s, s + [t], |s|, cut);
  }

  lemma {:induction false} RecentInSpan(s: seq<int>, cut: int, a: int, b: int)
    requires cut <= a
    ensures InSpan(s, a, b) == InSpan(Recent(s, cut), a, b)
  {
    if s != [] {
      assert s == s[..|s| - 1] + [s[|s| - 1]];
      RecentInSpan(s[..|s| - 1], cut, a, b);
      RecentOfMore(s[..|s| - 1], s[|s| - 1], cut);
      OneMore(Recent(s[..|s| - 1], cut), s[|s| - 1], a, b);
    }
  }

  lemma {:induction false} AtMostAll(s: seq<int>, a: int, b: int)
    ensures InSpan(s, a, b) <= |s|
  {
    if s != [] {
      AtMostAll(s[..|s| - 1], a, b);
    }
  }

  lemma NothingYet(key: string, n: int, window: int)
    ensures Live([], key, n, window) == Admitted([], key, n, window) == []
  {
  }

  lemma EmptyInSpan(a: int, b: int)
    ensures InSpan([], a, b) == 0
  {
  }

  /** What a call does to a key's hits and to its admissions. */
  lemma OneCall(before: seq<Call>, c: Call, key: string, n: int, window: int)
    ensures Live(before + [c], key, n, window)
            == if c.key == key then After(Live(before, key, n, window), c.now, n, window) else Live(before, key, n, window)
    ensures Admitted(before + [c], key, n, window)
            == if Passes(before, c, key, n, window) then Admitted(before, key, n, window) + [c.now]
               else Admitted(before, key, n, window)
  {
    assert (before + [c])[..|before|] == before;
  }

  lemma EachAfter(before: seq<Call>, c: Call, n: int, window: int)
    ensures Live(before + [c], c.key, n, window) == After(Live(before, c.key, n, window), c.now, n, window)
    ensures forall k :: k != c.key ==> Live(before + [c], k, n, window) == Live(before, k, n, window)
  {
    forall k ensures Live(before + [c], k, n, window)
                     == if c.key == k then After(Live(before, k, n, window), c.now, n, window) else Live(before, k, n, window)
    {
      OneCall(before, c, k, n, window);
    }
  }

  lemma {:induction false} RecentTwice(s: seq<int>, cut: int, later: int)
    requires cut <= later
    ensures Recent(Recent(s, cut), later) == Recent(s, later)
  {
    if s != [] {
      assert s == s[..|s| - 1] + [s[|s| - 1]];
      RecentTwice(s[..|s| - 1], cut, later);
      RecentOfMore(s[..|s| - 1], s[|s| - 1], cut);
      RecentOfMore(s[..|s| - 1], s[|s| - 1], later);
      RecentOfMore(Recent(s[..|s| - 1], cut), s[|s| - 1], later);
    }
  }

  lemma FewerLater(s: seq<int>, cut: int, later: int)
    requires cut <= later
    ensures |Recent(s, later)| <= |Recent(s, cut)|
  {
    RecentTwice(s, cut, later);
  }

  lemma SpanIsRecent(s: seq<int>, a: int, b: int)
    ensures InSpan(s, a, b) <= |Recent(s, a)|
  {
    RecentInSpan(s, a, a, b);
    AtMostAll(Recent(s, a), a, b);
  }

  /** If a key's hits and admissions agree on what is later than cut, they still do after a call. */
  lemma AgreeAfter(hits: seq<int>, admitted: seq<int>, now: int, n: int, window: int, cut: int)
    requires now - window <= cut && Recent(hits, cut) == Recent(admitted, cut)
    ensures Recent(After(hits, now, n, window), cut)
            == Recent(if |Recent(hits, now - window)| < n then admitted + [now] else admitted, cut)
  {
    hide Recent;
    var kept := Recent(hits, now - window);
    RecentTwice(hits, now - window, cut);
    if |kept| < n {
      RecentOfMore(kept, now, cut);
      RecentOfMore(admitted, now, cut);
    }
  }

  /**
   The filter forgets expired admissions and nothing else: of those later than what any call has cut
   off, all are there, in their order.
   */
  lemma {:induction false} NothingYoungIsLost(calls: seq<Call>, key: string, n: int, window: int, cut: int)
    requires forall i :: 0 <= i < |calls| ==> calls[i].now - window <= cut
    ensures Recent(Live(calls, key, n, window), cut) == Recent(Admitted(calls, key, n, window), cut)
  {
    hide Live, Admitted, Recent;
    if calls == [] {
      NothingYet(key, n, window);
    } else {
      var c, before := calls[|calls| - 1], calls[..|calls| - 1];
      assert calls == before + [c];
      NothingYoungIsLost(before, key, n, window, cut);
      OneCall(before, c, key, n, window);
      AgreeAfter(Live(before, key, n, window), Admitted(before, key, n, window), c.now, n, window, cut);
    }
  }

  /** A call that gets through finds fewer than n admissions in a span its window covers. */
  lemma FewerBefore(before: seq<Call>, c: Call, key: string, n: int, window: int, a: int, b: int)
    requires Passes(before, c, key, n, window) && c.now - window <= a
    requires forall i :: 0 <= i < |before| ==> before[i].now - window <= a
    ensures InSpan(Admitted(before, key, n, window), a, b) < n
  {
    SpanIsRecent(Admitted(before, key, n, window), a, b);
    NothingYoungIsLost(before, key, n, window, a);
    FewerLater(Live(before, key, n, window), c.now - window, a);
  }

  /** Which calls of a run got through. */
  ghost predicate Answered(calls: seq<Call>, passed: seq<bool>, n: int, window: int) {
    |passed| == |calls| && forall i :: 0 <= i < |calls| ==> passed[i] == Passes(calls[..i], calls[i], calls[i].key, n, window)
  }

  lemma AnswersGrow(calls: seq<Call>, passed: seq<bool>, c: Call, ok: bool, n: int, window: int)
    requires Answered(calls, passed, n, window) && ok == Passes(calls, c, c.key, n, window)
    ensures Answered(calls + [c], passed + [ok], n, window) && |passed| == |calls|
  {
    hide Passes;
    var more := calls + [c];
    assert more[..|calls|] == calls;
    forall i | 0 <= i < |calls| ensures more[..i] == calls[..i] {
    }
  }

  /** The calls for a key that got through later than cut. */
  ghost function Since(calls: seq<Call>, passed: seq<bool>, key: string, cut: int): set<nat>
    requires |passed| == |calls|
  {
    set i: nat | i < |calls| && passed[i] && calls[i].key == key && cut < calls[i].now
  }

  lemma SinceIs(calls: seq<Call>, passed: seq<bool>, key: string, cut: int)
    requires |passed| == |calls|
    ensures Since(calls, passed, key, cut) == set i: nat | i < |calls| && passed[i] && calls[i].key == key && cut < calls[i].now
  {
  }

  lemma SinceOneMore(calls: seq<Call>, passed: seq<bool>, c: Call, ok: bool, key: string, cut: int)
    requires |passed| == |calls|
    ensures |Since(calls + [c], passed + [ok], key, cut)|
            == |Since(calls, passed, key, cut)| + if ok && c.key == key && cut < c.now then 1 else 0
  {
    var was := Since(calls, passed, key, cut);
    assert Since(calls + [c], passed + [ok], key, cut)
        == if ok && c.key == key && cut < c.now then was + {|calls|} else was;
  }

  /** The admissions of a key are those that got through. */
  lemma {:induction false} SinceIsRecent(calls: seq<Call>, passed: seq<bool>, key: string, n: int, window: int, cut: int)
    requires Answered(calls, passed, n, window)
    ensures |Since(calls, passed, key, cut)| == |Recent(Admitted(calls, key, n, window), cut)|
  {
    hide Recent, Admitted, Live;
    if calls == [] {
      NothingYet(key, n, window);
      assert Since(calls, passed, key, cut) == {};
      assert |Recent([], cut)| == 0;
    } else {
      var m := |calls| - 1;
      var c, before, ok, were := calls[m], calls[..m], passed[m], passed[..m];
      assert calls == before + [c] && passed == were + [ok];
      forall i | 0 <= i < m ensures before[..i] == calls[..i] {
      }
      SinceIsRecent(before, were, key, n, window, cut);
      SinceOneMore(before, were, c, ok, key, cut);
      OneCall(before, c, key, n, window);
      if Passes(before, c, key, n, window) {
        RecentOfMore(Admitted(before, key, n, window), c.now, cut);
      }
    }
  }

  /** With a clock that never goes back, a call passes if and only if fewer than n of its key's did within the window. */
  lemma PassesIff(calls: seq<Call>, passed: seq<bool>, c: Call, n: int, window: int)
    requires Answered(calls, passed, n, window)
    ensures |passed| == |calls|
    ensures InOrder(calls + [c], 0) ==>
              (Passes(calls, c, c.key, n, window) <==> |Since(calls, passed, c.key, c.now - window)| < n)
  {
    hide Recent, Admitted, Live;
    if InOrder(calls + [c], 0) {
      var more := calls + [c];
      forall i | 0 <= i < |calls| ensures calls[i].now <= c.now {
        assert more[i].now <= more[|calls|].now;
      }
      NothingYoungIsLost(calls, c.key, n, window, c.now - window);
      SinceIsRecent(calls, passed, c.key, n, window, c.now - window);
    }
  }

  /**
   Whatever the calls and their keys, a span that is shorter than the window by the lag has at most
   n admissions for a key.
   */
  lemma {:induction false} AtMostNWithLag(calls: seq<Call>, key: string, n: nat, window: int, lag: nat, a: int)
    requires InOrder(calls, lag)
    ensures InSpan(Admitted(calls, key, n, window), a, a + window - lag) <= n
  {
    hide Live, Admitted, Recent, InSpan;
    if calls == [] {
      NothingYet(key, n, window);
      EmptyInSpan(a, a + window - lag);
    } else {
      var c, before, b := calls[|calls| - 1], calls[..|calls| - 1], a + window - lag;
      assert calls == before + [c];
      AtMostNWithLag(before, key, n, window, lag, a);
      OneCall(before, c, key, n, window);
      OneMore(Admitted(before, key, n, window), c.now, a, b);
      if Passes(before, c, key, n, window) && a < c.now <= b {
        FewerBefore(before, c, key, n, window, a, b);
      }
    }
  }

  /** With a clock that never goes back, no span of the window's length has more than n admissions. */
  lemma AtMostN(calls: seq<Call>, key: string, n: nat, window: int, a: int)
    requires InOrder(calls, 0)
    ensures InSpan(Admitted(calls, key, n, window), a, a + window) <= n
  {
    AtMostNWithLag(calls, key, n, window, 0, a);
  }

  // ---------------------------------------------------------------------
  // Exactly when the limit holds
  // ---------------------------------------------------------------------

  /** Each time is at least the gap after every earlier one. */
  ghost predicate Spaced(times: seq<int>, gap: int) {
    forall i, j :: 0 <= i < j < |times| ==> times[i] + gap <= times[j]
  }

  lemma {:induction false} NoneInSpan(times: seq<int>, a: int, b: int)
    requires forall i :: 0 <= i < |times| ==> times[i] <= a
    ensures InSpan(times, a, b) == 0
  {
    if times != [] {
      NoneInSpan(times[..|times| - 1], a, b);
    }
  }

  lemma {:induction false} OneOfSpaced(times: seq<int>, gap: int, a: int, b: int)
    requires Spaced(times, gap) && b <= a + gap
    ensures InSpan(times, a, b) <= 1
  {
    if times != [] {
      var rest := times[..|times| - 1];
      if a < times[|times| - 1] <= b {
        NoneInSpan(rest, a, b);
      } else {
        OneOfSpaced(rest, gap, a, b);
      }
    }
  }

  /** With a limit of one the key's hit is its last admission, and the next comes a window later. */
  lemma {:induction false} OneAtATime(calls: seq<Call>, key: string, window: int)
    ensures Spaced(Admitted(calls, key, 1, window), window) || window < 0
    ensures var admitted := Admitted(calls, key, 1, window);
            Live(calls, key, 1, window) == if admitted == [] then [] else [admitted[|admitted| - 1]]
  {
    hide Live, Admitted, Recent;
    if calls == [] {
      NothingYet(key, 1, window);
    } else {
      var c, before := calls[|calls| - 1], calls[..|calls| - 1];
      assert calls == before + [c];
      OneAtATime(before, key, window);
      OneCall(before, c, key, 1, window);
      var admitted := Admitted(before, key, 1, window);
      if admitted != [] {
        RecentOfOne(admitted[|admitted| - 1], c.now - window);
      }
    }
  }

  lemma RecentOfOne(t: int, cut: int)
    ensures Recent([t], cut) == if t > cut then [t] else []
  {
    RecentOfMore([], t, cut);
    assert [] + [t] == [t];
  }

  /** A limit of none or one is kept whatever the order of the stamps. */
  lemma FewAreAlwaysKept(calls: seq<Call>, key: string, n: nat, window: int, a: int, b: int)
    requires n <= 1 && b <= a + window
    ensures InSpan(Admitted(calls, key, n, window), a, b) <= n
  {
    hide Live, Admitted, InSpan;
    if n == 0 {
      EmptyInSpan(a, b);
      NoneAdmitted(calls, key, window);
    } else if window < 0 {
      EmptySpan(Admitted(calls, key, n, window), a, b);
    } else {
      OneAtATime(calls, key, window);
      OneOfSpaced(Admitted(calls, key, 1, window), window, a, b);
    }
  }

  lemma {:induction false} NoneAdmitted(calls: seq<Call>, key: string, window: int)
    ensures Admitted(calls, key, 0, window) == []
  {
    if calls != [] {
      NoneAdmitted(calls[..|calls| - 1], key, window);
    }
  }

  lemma {:induction false} EmptySpan(times: seq<int>, a: int, b: int)
    requires b <= a
    ensures InSpan(times, a, b) == 0
  {
    if times != [] {
      EmptySpan(times[..|times| - 1], a, b);
    }
  }

  /** k calls at once. */
  function Burst(key: string, k: nat): (calls: seq<Call>)
    ensures |calls| == k && forall i :: 0 <= i < k ==> calls[i] == Call(key, 0)
  {
    if k == 0 then [] else Burst(key, k - 1) + [Call(key, 0)]
  }

  function Zeros(k: nat): (times: seq<int>)
    ensures |times| == k && forall i :: 0 <= i < k ==> times[i] == 0
  {
    if k == 0 then [] else Zeros(k - 1) + [0]
  }

  lemma {:induction false} RecentZeros(k: nat, cut: int)
    ensures Recent(Zeros(k), cut) == if cut < 0 then Zeros(k) else []
  {
    if k > 0 {
      RecentZeros(k - 1, cut);
      RecentOfMore(Zeros(k - 1), 0, cut);
    }
  }

  lemma {:induction false} ZerosInSpan(k: nat, b: nat)
    ensures InSpan(Zeros(k), -1, b) == k
  {
    if k > 0 {
      ZerosInSpan(k - 1, b);
      OneMore(Zeros(k - 1), 0, -1, b);
    }
  }

  lemma {:induction false} BurstPasses(key: string, k: nat, n: nat, window: int)
    requires k <= n && window > 0
    ensures Live(Burst(key, k), key, n, window) == Admitted(Burst(key, k), key, n, window) == Zeros(k)
  {
    hide Live, Admitted, Recent;
    if k == 0 {
      NothingYet(key, n, window);
    } else {
      BurstPasses(key, k - 1, n, window);
      OneCall(Burst(key, k - 1), Call(key, 0), key, n, window);
      RecentZeros(k - 1, -window);
    }
  }

  /** Where a call that was stamped first is recorded last: n at once, one a window later, one late. */
  function LateRun(key: string, n: nat, window: int, late: int): seq<Call> {
    Burst(key, n) + [Call(key, window)] + [Call(key, late)]
  }

  /** The call a window later makes the limiter forget the burst, and the late one then passes. */
  lemma LateCallPasses(key: string, n: nat, window: int, late: int)
    requires n >= 2 && 0 <= late < window
    ensures Admitted(LateRun(key, n, window, late), key, n, window) == Zeros(n) + [window] + [late]
  {
    hide Live, Admitted, Recent, InSpan;
    var burst := Burst(key, n);
    BurstPasses(key, n, n, window);
    RecentZeros(n, 0);
    OneCall(burst, Call(key, window), key, n, window);
    assert [] + [window] == [window];
    RecentOfOne(window, late - window);
    OneCall(burst + [Call(key, window)], Call(key, late), key, n, window);
  }

  lemma LateRunInOrder(key: string, n: nat, window: int, late: int, lag: nat)
    requires 0 <= late < window <= late + lag
    ensures InOrder(LateRun(key, n, window, late), lag)
  {
  }

  /** A span that is shorter than the window by less than the lag can have one admission too many. */
  lemma OneTooMany(key: string, n: nat, window: int, lag: nat, slack: nat)
    requires n >= 2 && slack < lag && slack < window
    ensures var late := if window < lag then 0 else window - lag;
            && InOrder(LateRun(key, n, window, late), lag)
            && InSpan(Admitted(LateRun(key, n, window, late), key, n, window), -1, -1 + window - slack) == n + 1
  {
    hide InSpan, Admitted;
    var late, b := if window < lag then 0 else window - lag, -1 + window - slack;
    LateRunInOrder(key, n, window, late, lag);
    LateCallPasses(key, n, window, late);
    ZerosInSpan(n, b);
    OneMore(Zeros(n), window, -1, b);
    OneMore(Zeros(n) + [window], late, -1, b);
  }

  /** No run whose stamps are up to the lag out of order has more than n admissions in a span `slack` short of the window. */
  ghost predicate Limits(n: nat, window: int, lag: nat, slack: nat) {
    forall calls, key, a, b :: InOrder(calls, lag) && b == a + window - slack ==> InSpan(Admitted(calls, key, n, window), a, b) <= n
  }

  /**
   The clock is read before the lock is taken, so a call may be recorded after one with a later stamp.
   The limit then holds of spans that are shorter than the window by the lag, and, unless they are
   empty or the limit is at most one, of no longer ones.
   */
  lemma LimitsIff(n: nat, window: int, lag: nat, slack: nat)
    ensures Limits(n, window, lag, slack) <==> n <= 1 || slack >= lag || slack >= window
  {
    if n <= 1 || slack >= lag || slack >= window {
      forall calls, key, a, b | InOrder(calls, lag) && b == a + window - slack
        ensures InSpan(Admitted(calls, key, n, window), a, b) <= n
      {
        if n <= 1 {
          FewAreAlwaysKept(calls, key, n, window, a, b);
        } else if slack >= lag {
          LooserOrder(calls, lag, slack);
          AtMostNWithLag(calls, key, n, window, slack, a);
        } else {
          EmptySpan(Admitted(calls, key, n, window), a, b);
        }
      }
    } else {
      var late := if window < lag then 0 else window - lag;
      OneTooMany("", n, window, lag, slack);
      assert !(InSpan(Admitted(LateRun("", n, window, late), "", n, window), -1, -1 + window - slack) <= n);
    }
  }

  lemma LooserOrder(calls: seq<Call>, lag: nat, more: nat)
    requires InOrder(calls, lag) && lag <= more
    ensures InOrder(calls, more)
  {
  }
}
