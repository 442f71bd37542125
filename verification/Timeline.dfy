/**
 The HLS timeline of a title (internal/hls/vod.go). All times are milliseconds of movie time; a ratio
 of milliseconds to seconds is rounded exactly.
 */
module Timeline {

  datatype Segment = Segment(index: int, start: int, duration: int)

  datatype Plan = Plan(targetSec: int, duration: int, segments: seq<Segment>)

  function End(s: Segment): int {
    s.start + s.duration
  }

  /** The segments follow each other from 0 to `upTo` without a gap or an overlap, numbered in order. */
  ghost predicate Covers(segs: seq<Segment>, upTo: int) {
    && (forall i :: 0 <= i < |segs| ==> segs[i].index == i && segs[i].duration > 0)
    && (forall i :: 0 < i < |segs| ==> segs[i].start == End(segs[i - 1]))
    && (segs != [] ==> segs[0].start == 0)
    && upTo == if segs == [] then 0 else End(segs[|segs| - 1])
  }

  lemma {:induction false} StartsAscend(segs: seq<Segment>, upTo: int, i: nat, j: nat)
    requires Covers(segs, upTo) && i <= j < |segs|
    ensures segs[i].start <= segs[j].start && (i < j ==> End(segs[i]) <= segs[j].start)
    ensures 0 <= segs[i].start && End(segs[j]) <= upTo
    decreases |segs|
  {
    var n := |segs| - 1;
    if n > 0 {
      assert Covers(segs[..n], segs[n].start);
      if j < n {
        StartsAscend(segs[..n], segs[n].start, i, j);
      } else if i < n {
        StartsAscend(segs[..n], segs[n].start, i, n - 1);
      } else {
        StartsAscend(segs[..n], segs[n].start, n - 1, n - 1);
      }
    }
  }

  // ---------------------------------------------------------------------
  // Equal lengths
  // ---------------------------------------------------------------------

  function TargetOr4(sec: int): (t: int)
    ensures t > 0
  {
    if sec <= 0 then 4 else sec
  }

  /** Slices of the target length cover the duration; only the last may be shorter. */
  method EqualLengthPlan(duration: int, targetSec: int) returns (p: Plan)
    ensures p.targetSec == if targetSec > 0 then targetSec else 4
    ensures duration <= 0 ==> p.segments == [] && p.duration == 0
    ensures duration > 0 ==> p.duration == duration && p.segments != [] && Covers(p.segments, duration)
    ensures forall i :: 0 <= i < |p.segments| - 1 ==> p.segments[i].duration == 1000 * p.targetSec
    ensures p.segments != [] ==> p.segments[|p.segments| - 1].duration <= 1000 * p.targetSec
  {
    var target := TargetOr4(targetSec);
    if duration <= 0 {
      return Plan(target, 0, []);
    }
    var step := target * 1000;
    var segs: seq<Segment> := [];
    var t := 0;
    while t < duration
      invariant Covers(segs, t) && t <= duration && (segs == [] ==> t == 0)
      invariant forall i :: 0 <= i < |segs| ==> segs[i].duration == step || (t == duration && i == |segs| - 1 && segs[i].duration <= step)
    {
      var d := if t + step > duration then duration - t else step;
      segs := segs + [Segment(|segs|, t, d)];
      t := t + d;
    }
    p := Plan(target, duration, segs);
  }

  // ---------------------------------------------------------------------
  // Keyframes
  // ---------------------------------------------------------------------

  ghost predicate Ascending(s: seq<int>) {
    forall i, j :: 0 <= i < j < |s| ==> s[i] < s[j]
  }

  /** x put in its place. */
  function Insert(x: int, s: seq<int>): (r: seq<int>)
    requires Ascending(s) && x !in s
    ensures Ascending(r) && forall y :: y in r <==> y == x || y in s
  {
    if s == [] || x < s[0] then [x] + s
    else
      var rest := Insert(x, s[1..]);
      assert s == [s[0]] + s[1..];
      assert forall k :: 0 <= k < |rest| ==> rest[k] in rest;
      [s[0]] + rest
  }

  ghost predicate Distinct(s: seq<int>) {
    forall i, j :: 0 <= i < j < |s| ==> s[i] != s[j]
  }

  /** sort.Slice, on distinct numbers. */
  function Sorted(s: seq<int>): (r: seq<int>)
    requires Distinct(s)
    ensures Ascending(r) && forall y :: y in r <==> y in s
  {
    if s == [] then []
    else
      assert s == s[..|s| - 1] + [s[|s| - 1]];
      Insert(s[|s| - 1], Sorted(s[..|s| - 1]))
  }

  /** normalizeKeyframes: the keyframes inside the title, 0 and its end, in order and once each. */
  method NormalizeKeyframes(raw: seq<int>, duration: int) returns (out: seq<int>)
    ensures Ascending(out) && out != [] && out[0] == 0
    ensures forall y :: y in out <==>
              y == 0 || (duration > 0 && y == duration) || (y in raw && y >= 0 && (duration > 0 ==> y <= duration))
  {
    hide Insert, Sorted;
    var seen: set<int> := {};
    var kept: seq<int> := [];
    for i := 0 to |raw|
      invariant Distinct(kept) && forall y :: y in seen <==> y in kept
      invariant forall y :: y in kept <==> y in raw[..i] && y >= 0 && (duration > 0 ==> y <= duration)
    {
      var ms := raw[i];
      assert raw[..i + 1] == raw[..i] + [ms];
      if ms < 0 || (duration > 0 && ms > duration) || ms in seen {
        continue;
      }
      seen, kept := seen + {ms}, kept + [ms];
    }
    assert raw[..|raw|] == raw;
    out := Sorted(kept);
    if out == [] || out[0] != 0 {
      assert forall y :: y in out ==> y >= 0;
      ZeroFirst(out);
      out := [0] + out;
    }
    if duration > 0 && out[|out| - 1] != duration {
      DurationLast(out, duration);
      out := out + [duration];
    }
  }

  lemma ZeroFirst(s: seq<int>)
    requires Ascending(s) && (forall y :: y in s ==> y >= 0) && (s != [] ==> s[0] != 0)
    ensures Ascending([0] + s)
  {
    forall i | 0 <= i < |s| ensures s[i] > 0 {
      assert s[i] in s && s[0] in s;
    }
  }

  lemma DurationLast(s: seq<int>, duration: int)
    requires Ascending(s) && s != [] && s[|s| - 1] != duration && duration > 0
    requires forall y :: y in s ==> y <= duration
    ensures Ascending(s + [duration])
  {
    forall i | 0 <= i < |s| ensures s[i] < duration {
      assert s[i] in s && s[|s| - 1] in s;
    }
  }

  /** At least two keyframes, one of them (or the start) within two seconds of the end. */
  method KeyframesCover(keyframes: seq<int>, duration: int) returns (ok: bool)
    ensures ok <==>
            duration > 0 && |keyframes| >= 2 && (duration <= 2000 || exists k :: k in keyframes && duration - k <= 2000)
  {
    if duration <= 0 || |keyframes| < 2 {
      return false;
    }
    var max := 0;
    for i := 0 to |keyframes|
      invariant max >= 0 && (max == 0 || max in keyframes)
      invariant forall k :: k in keyframes[..i] ==> k <= max
    {
      assert keyframes[..i + 1] == keyframes[..i] + [keyframes[i]];
      if keyframes[i] > max {
        max := keyframes[i];
      }
    }
    assert keyframes[..|keyframes|] == keyframes;
    ok := duration - max <= 2000;
    if !ok {
      assert forall k :: k in keyframes ==> k <= max;
    }
  }

  /** The cut after `last`: the earliest keyframe at least `target` later, or the end of the title. */
  ghost predicate IsCut(keyframes: seq<int>, duration: int, last: int, target: int, cut: int) {
    && last < cut <= duration
    && (cut < duration ==> cut in keyframes && cut >= last + target)
    && forall k :: k in keyframes && k >= last + target ==> cut <= k
  }

  /** The points between 0 and the end of the title are exactly the keyframes there. */
  ghost predicate Points(keyframes: seq<int>, duration: int, pts: seq<int>) {
    forall y :: y in pts <==> y == 0 || y == duration || (y in keyframes && 0 <= y <= duration)
  }

  lemma PointsGiveCut(keyframes: seq<int>, duration: int, pts: seq<int>, last: int, target: int, next: int)
    requires Points(keyframes, duration, pts) && 0 <= last < next <= duration && target > 0
    requires next == duration || (next in pts && next >= last + target)
    requires forall y :: y in pts && last < y && last + target <= y ==> next <= y
    ensures IsCut(keyframes, duration, last, target, next)
  {
    forall k | k in keyframes && k >= last + target ensures next <= k {
      assert k <= duration ==> k in pts;
    }
  }

  /** KeyframePlan: every segment ends at the cut after its start, and together they cover the title. */
  method KeyframePlan(keyframes: seq<int>, duration: int, maxSegSec: int) returns (p: Plan)
    ensures p.targetSec == (if maxSegSec > 0 then maxSegSec else 4) && p.duration == duration
    ensures p.segments != [] <==>
            duration > 0 && |keyframes| >= 2 && (duration <= 2000 || exists k :: k in keyframes && duration - k <= 2000)
    ensures p.segments != [] ==> Covers(p.segments, duration)
    ensures forall i :: 0 <= i < |p.segments| ==>
              IsCut(keyframes, duration, p.segments[i].start, 1000 * p.targetSec, End(p.segments[i]))
  {
    var target := TargetOr4(maxSegSec);
    var covered := KeyframesCover(keyframes, duration);
    if !covered {
      return Plan(target, duration, []);
    }
    var pts := NormalizeKeyframes(keyframes, duration);
    assert Points(keyframes, duration, pts);
    var segs: seq<Segment> := [];
    var last := 0;
    while last < duration
      invariant Covers(segs, last) && 0 <= last <= duration && (segs == [] ==> last == 0)
      invariant forall i :: 0 <= i < |segs| ==> IsCut(keyframes, duration, segs[i].start, target * 1000, End(segs[i]))
    {
      var next := NextCut(pts, last, last + target * 1000, duration);
      PointsGiveCut(keyframes, duration, pts, last, target * 1000, next);
      segs := segs + [Segment(|segs|, last, next - last)];
      last := next;
    }
    p := Plan(target, duration, segs);
  }

  /** The inner loop: the first point past `last` that reaches the threshold. */
  method NextCut(pts: seq<int>, last: int, threshold: int, duration: int) returns (next: int)
    requires Ascending(pts) && last < duration && forall y :: y in pts ==> y <= duration
    ensures last < next <= duration
    ensures next == duration || (next in pts && next >= threshold)
    ensures forall y :: y in pts && last < y && threshold <= y ==> next <= y
  {
    next := duration;
    for i := 0 to |pts|
      invariant next == duration
      invariant forall j :: 0 <= j < i ==> pts[j] <= last || pts[j] < threshold
    {
      if pts[i] > last && pts[i] >= threshold {
        assert pts[i] in pts;
        return pts[i];
      }
    }
  }

  // ---------------------------------------------------------------------
  // Lookup and target duration
  // ---------------------------------------------------------------------

  /** sort.Search for the first segment that starts after ms. */
  method SearchAfter(segs: seq<Segment>, ms: int) returns (i: nat)
    ensures i <= |segs|
    ensures i > 0 ==> segs[i - 1].start <= ms
    ensures i < |segs| ==> segs[i].start > ms
  {
    var lo, hi := 0, |segs|;
    while lo < hi
      invariant 0 <= lo <= hi <= |segs|
      invariant lo > 0 ==> segs[lo - 1].start <= ms
      invariant hi < |segs| ==> segs[hi].start > ms
    {
      var mid := lo + (hi - lo) / 2;
      if segs[mid].start > ms {
        hi := mid;
      } else {
        lo := mid + 1;
      }
    }
    i := lo;
  }

  /** IndexForMS: inside a covered timeline, the segment that contains ms; past its end, the last one. */
  method IndexForMS(p: Plan, ms: int) returns (i: int)
    ensures p.segments != [] ==> 0 <= i < |p.segments|
    ensures p.segments == [] ==> i == 0
    ensures Covers(p.segments, p.duration) && 0 <= ms < p.duration ==> p.segments[i].start <= ms < End(p.segments[i])
    ensures Covers(p.segments, p.duration) && p.segments != [] && ms >= p.duration && ms > 0 ==> i == |p.segments| - 1
    ensures ms <= 0 ==> i == 0
  {
    if |p.segments| == 0 || ms <= 0 {
      return 0;
    }
    var after := SearchAfter(p.segments, ms);
    if after == 0 {
      return 0;
    }
    if after < |p.segments| && Covers(p.segments, p.duration) {
      StartsAscend(p.segments, p.duration, after, after);
    }
    i := after - 1;
  }

  /** A segment is in only one place: the index found is the only one whose segment contains ms. */
  lemma OnlyOneContains(segs: seq<Segment>, upTo: int, ms: int, i: nat, j: nat)
    requires Covers(segs, upTo) && i < |segs| && j < |segs|
    requires segs[i].start <= ms < End(segs[i]) && segs[j].start <= ms < End(segs[j])
    ensures i == j
  {
    StartsAscend(segs, upTo, if i < j then i else j, if i < j then j else i);
  }

  /** Seconds, rounded up. */
  function Ceil(ms: int): (s: int)
    ensures 1000 * (s - 1) < ms <= 1000 * s
  {
    (ms + 999) / 1000
  }

  /**
   TargetDuration: the least whole number of seconds that is at least one, the plan's target and every
   segment's length (section 4.3.3.1 of RFC 8216).
   */
  method TargetDuration(p: Plan) returns (sec: int)
    ensures sec >= 1 && sec >= p.targetSec
    ensures forall i :: 0 <= i < |p.segments| ==> p.segments[i].duration <= 1000 * sec
    ensures sec == 1 || sec == p.targetSec || exists i :: 0 <= i < |p.segments| && sec == Ceil(p.segments[i].duration)
  {
    sec := p.targetSec;
    for i := 0 to |p.segments|
      invariant sec >= p.targetSec
      invariant forall j :: 0 <= j < i ==> p.segments[j].duration <= 1000 * sec
      invariant sec == p.targetSec || exists j :: 0 <= j < i && sec == Ceil(p.segments[j].duration)
    {
      var s := Ceil(p.segments[i].duration);
      if s > sec {
        sec := s;
      }
    }
    if sec < 1 {
      sec := 1;
    }
  }

  function Total(segs: seq<Segment>): int {
    if segs == [] then 0 else Total(segs[..|segs| - 1]) + segs[|segs| - 1].duration
  }

  method ListedDurationMS(p: Plan) returns (sum: int)
    ensures sum == Total(p.segments)
  {
    sum := 0;
    for i := 0 to |p.segments|
      invariant sum == Total(p.segments[..i])
    {
      assert p.segments[..i + 1][..i] == p.segments[..i];
      sum := sum + p.segments[i].duration;
    }
    assert p.segments[..|p.segments|] == p.segments;
  }

  /** The listed segments of a covered timeline last exactly as long as the title. */
  lemma {:induction false} ListedIsWholeTitle(segs: seq<Segment>, upTo: int)
    requires Covers(segs, upTo)
    ensures Total(segs) == upTo
  {
    if segs != [] {
      var n := |segs| - 1;
      assert Covers(segs[..n], segs[n].start);
      ListedIsWholeTitle(segs[..n], segs[n].start);
    }
  }
}
