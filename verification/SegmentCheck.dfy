/**
 completeSegment (internal/jellyfin/relay.go): whether a segment that was sent is whole. An fMP4
 segment is a run of top-level boxes, each headed by its size, under the size rules of the code;
 SegmentStandard tells them from those of the standard.
 */
module SegmentCheck {

  type Byte = b: int | 0 <= b < 256

  datatype Verdict = Whole | Incomplete | ReadFailed

  const TwoTo63 := 0x8000_0000_0000_0000
  const TwoTo64 := 0x1_0000_0000_0000_0000

  function Uint32(f: seq<Byte>, at: nat): (r: nat)
    requires at + 4 <= |f|
    ensures r < 0x1_0000_0000
  {
    0x100_0000 * (f[at] as int) + 0x1_0000 * (f[at + 1] as int) + 0x100 * (f[at + 2] as int) + f[at + 3] as int
  }

  function Uint64(f: seq<Byte>, at: nat): (r: nat)
    requires at + 8 <= |f|
    ensures r < TwoTo64
  {
    0x1_0000_0000 * Uint32(f, at) + Uint32(f, at + 4)
  }

  /** Go's int64 of an unsigned or out-of-range value. */
  function Int64(x: int): int {
    if x >= TwoTo63 then x - TwoTo64 else x
  }

  predicate IsMedia(f: seq<Byte>, at: nat): (r: bool)
    requires at + 8 <= |f|
    ensures r <==> f[at + 4] == 'm' as int && f[at + 5] == 'd' as int && f[at + 6] == 'a' as int && f[at + 7] == 't' as int
  {
    f[at + 4..at + 8] == [109, 100, 97, 116] // "mdat"
  }

  // ---------------------------------------------------------------------
  // A file of boxes
  // ---------------------------------------------------------------------

  /** The box at `at` ends at next: by its size, by its 64-bit size, or with the file if the size is 0. */
  predicate BoxAt(f: seq<Byte>, at: nat, next: nat) {
    && at + 8 <= next <= |f|
    && match Uint32(f, at) {
       case 0 => next == |f|
       case 1 => at + 16 <= |f| && Uint64(f, at + 8) == next - at
       case size => size == next - at
       }
  }

  predicate Link(f: seq<Byte>, cuts: seq<nat>, k: nat)
    requires 0 < k < |cuts|
  {
    BoxAt(f, cuts[k - 1], cuts[k])
  }

  /** Boxes one after the other, from the start of the file to the last of the cuts. */
  ghost predicate Chain(f: seq<Byte>, cuts: seq<nat>) {
    |cuts| > 0 && cuts[0] == 0 && forall k :: 0 < k < |cuts| ==> Link(f, cuts, k)
  }

  /** One of the boxes of the chain holds media. */
  ghost predicate HasMedia(f: seq<Byte>, cuts: seq<nat>) {
    exists k :: 0 < k < |cuts| && Link(f, cuts, k) && IsMedia(f, cuts[k - 1])
  }

  ghost predicate Splits(f: seq<Byte>, cuts: seq<nat>) {
    Chain(f, cuts) && End(cuts) == |f| && HasMedia(f, cuts)
  }

  function End(cuts: seq<nat>): nat
    requires cuts != []
  {
    cuts[|cuts| - 1]
  }

  ghost predicate IsWhole(f: seq<Byte>, ext: string) {
    && f != []
    && if ext == ".ts" then |f| % 188 == 0 else exists cuts :: Splits(f, cuts)
  }

  /** A file can be taken apart in one way only. */
  lemma {:induction false} OneChain(f: seq<Byte>, a: seq<nat>, b: seq<nat>, k: nat)
    requires Chain(f, a) && Chain(f, b) && k < |a| <= |b|
    ensures a[k] == b[k]
  {
    if k > 0 {
      OneChain(f, a, b, k - 1);
      assert Link(f, a, k) && Link(f, b, k);
    }
  }

  lemma {:induction false} CutsRise(f: seq<Byte>, cuts: seq<nat>, i: nat, j: nat)
    requires Chain(f, cuts) && i <= j < |cuts|
    ensures cuts[i] + 8 * (j - i) <= cuts[j] && (j > 0 ==> cuts[j] <= |f|)
  {
    if j > 0 {
      assert Link(f, cuts, j);
    }
    if i < j {
      CutsRise(f, cuts, i, j - 1);
    }
  }

  lemma LongerGoesFurther(f: seq<Byte>, a: seq<nat>, b: seq<nat>)
    requires Chain(f, a) && Chain(f, b) && |a| <= |b|
    ensures End(a) + 8 * (|b| - |a|) <= End(b)
  {
    OneChain(f, a, b, |a| - 1);
    CutsRise(f, b, |a| - 1, |b| - 1);
  }

  lemma Goes(f: seq<Byte>, cuts: seq<nat>, other: seq<nat>)
    requires Chain(f, cuts) && Chain(f, other) && End(cuts) < End(other)
    ensures |cuts| < |other| && BoxAt(f, End(cuts), other[|cuts|])
  {
    if |other| <= |cuts| {
      LongerGoesFurther(f, other, cuts);
    } else {
      OneChain(f, cuts, other, |cuts| - 1);
      assert Link(f, other, |cuts|);
    }
  }

  /** Two chains with the same end are the same. */
  lemma SameChain(f: seq<Byte>, a: seq<nat>, b: seq<nat>)
    requires Chain(f, a) && Chain(f, b) && End(a) == End(b)
    ensures a == b
  {
    if |a| <= |b| {
      LongerGoesFurther(f, a, b);
    } else {
      LongerGoesFurther(f, b, a);
    }
    forall k | 0 <= k < |a| ensures a[k] == b[k] {
      OneChain(f, a, b, k);
    }
  }

  lemma ChainWith(f: seq<Byte>, cuts: seq<nat>, next: nat)
    requires Chain(f, cuts) && BoxAt(f, End(cuts), next)
    ensures Chain(f, cuts + [next])
    ensures HasMedia(f, cuts + [next]) <==> HasMedia(f, cuts) || IsMedia(f, End(cuts))
  {
    hide Uint32, Uint64, IsMedia, BoxAt;
    var more := cuts + [next];
    assert forall k :: 0 <= k < |cuts| ==> more[k] == cuts[k];
    assert forall k :: 0 < k < |cuts| && Link(f, cuts, k) ==> Link(f, more, k);
    assert forall k :: 0 < k < |cuts| && Link(f, more, k) ==> Link(f, cuts, k);
    assert Link(f, more, |cuts|);
  }

  // ---------------------------------------------------------------------
  // The check
  // ---------------------------------------------------------------------

  /** What the walk knows at `at`: the boxes so far, or that the offset has wrapped around. */
  ghost predicate Walked(f: seq<Byte>, cuts: seq<nat>, at: int, media: bool) {
    Chain(f, cuts) && End(cuts) == at <= |f| && media == HasMedia(f, cuts)
  }

  /** Where no box begins, short of the end, the file is not whole. */
  lemma DeadEnd(f: seq<Byte>, cuts: seq<nat>, at: int, media: bool)
    requires Walked(f, cuts, at, media) && at < |f| && forall next :: !BoxAt(f, at, next)
    ensures !IsWhole(f, "")
  {
    forall other ensures !Splits(f, other) {
      if Chain(f, other) && End(other) == |f| {
        Goes(f, cuts, other);
      }
    }
  }

  lemma AtTheEnd(f: seq<Byte>, cuts: seq<nat>, media: bool)
    requires Walked(f, cuts, |f|, media) && f != []
    ensures media <==> IsWhole(f, "")
  {
    forall other | Splits(f, other) ensures media {
      SameChain(f, cuts, other);
    }
    if media {
      assert Splits(f, cuts);
    }
  }

  /** The size that the code takes from the header at `at`, as int64; 0 if a 64-bit size is cut off. */
  function HeaderSize(f: seq<Byte>, at: nat): int
    requires at + 8 <= |f|
  {
    match Uint32(f, at)
    case 0 => |f| - at
    case 1 => if at + 16 <= |f| then Int64(Uint64(f, at + 8)) else 0
    case size => size
  }

  /** The size at `at` takes its box past what an int64 can count. */
  predicate WrapsAround(f: seq<Byte>, at: nat) {
    at + 8 <= |f| && at + HeaderSize(f, at) >= TwoTo63
  }

  /** A size that is too small or too large means that no box begins there. */
  lemma SizeRight(f: seq<Byte>, at: nat)
    requires at + 8 <= |f| < TwoTo63
    ensures var box := HeaderSize(f, at);
            if box < 8 || at + box > |f| then forall next :: !BoxAt(f, at, next) else BoxAt(f, at, at + box)
  {
  }

  /** What follows from a header, whether or not at + box wraps around. */
  lemma NextBox(f: seq<Byte>, cuts: seq<nat>, at: nat, media: bool)
    requires |f| < TwoTo63 && Walked(f, cuts, at, media) && at + 8 <= |f|
    ensures var box := HeaderSize(f, at);
            if box < 8 || at + box > |f| then !IsWhole(f, "")
            else Walked(f, cuts + [at + box], at + box, media || IsMedia(f, at))
  {
    SizeRight(f, at);
    var box := HeaderSize(f, at);
    if box < 8 || at + box > |f| {
      DeadEnd(f, cuts, at, media);
    } else {
      ChainWith(f, cuts, at + box);
    }
  }

  lemma SameBytes(f: seq<Byte>, at: nat)
    requires at + 8 <= |f|
    ensures Uint32(f[at..at + 8], 0) == Uint32(f, at) && Uint64(f[at..at + 8], 0) == Uint64(f, at)
    ensures f[at..at + 8][4..8] == f[at + 4..at + 8]
  {
  }

  /** ReadAt fails at a negative offset; a file that is there can be read otherwise. */
  method ReadAt(f: seq<Byte>, at: int, n: nat) returns (ok: bool, bytes: seq<Byte>)
    requires at + n <= |f|
    ensures ok == (at >= 0)
    ensures ok ==> bytes == f[at..at + n]
  {
    if at < 0 {
      return false, [];
    }
    return true, f[at..at + n];
  }

  /** completeSegment: accepts exactly the whole segments. */
  method CompleteSegment(f: seq<Byte>, ext: string) returns (v: Verdict)
    requires |f| < TwoTo63
    ensures v == Whole <==> IsWhole(f, ext)
    ensures ext == ".ts" ==> v == if f != [] && |f| % 188 == 0 then Whole else Incomplete
    ensures v == ReadFailed ==> exists at :: WrapsAround(f, at)
  {
    if |f| == 0 {
      return Incomplete;
    }
    if ext == ".ts" {
      return if |f| % 188 != 0 then Incomplete else Whole;
    }
    v := CompleteBoxes(f);
  }

  /** The walk over the boxes. at + box wraps around as int64 does; a wrapped offset cannot be read. */
  method CompleteBoxes(f: seq<Byte>) returns (v: Verdict)
    requires 0 < |f| < TwoTo63
    ensures v == Whole <==> IsWhole(f, "")
    ensures v == ReadFailed ==> exists at :: WrapsAround(f, at)
  {
    hide Uint32, Uint64;
    var at, media := 0, false;
    ghost var cuts: seq<nat> := [0];
    while at + 8 <= |f|
      invariant if at >= 0 then Walked(f, cuts, at, media) else !IsWhole(f, "") && exists was :: WrapsAround(f, was)
      decreases if at < 0 then 0 else |f| - at + 1
    {
      var ok, head := ReadAt(f, at, 8);
      if !ok {
        return ReadFailed;
      }
      SameBytes(f, at);
      NextBox(f, cuts, at, media);
      var box := Uint32(head, 0);
      if box == 1 {
        if at + 16 > |f| {
          return Incomplete;
        }
        var _, large := ReadAt(f, at + 8, 8);
        SameBytes(f, at + 8);
        box := Int64(Uint64(large, 0));
      } else if box == 0 {
        box := |f| - at;
      }
      assert box == HeaderSize(f, at);
      if box < 8 || Int64(at + box) > |f| {
        return Incomplete;
      }
      if head[4..8] == [109, 100, 97, 116] {
        media := true;
      }
      if at + box <= |f| {
        cuts := cuts + [at + box];
      }
      assert at + box >= TwoTo63 ==> WrapsAround(f, at);
      at := Int64(at + box);
    }
    if at == |f| {
      AtTheEnd(f, cuts, media);
    } else if at >= 0 {
      NoBoxAfter(f, cuts, at, media);
    }
    if at != |f| || !media {
      return Incomplete;
    }
    return Whole;
  }

  lemma NoBoxAfter(f: seq<Byte>, cuts: seq<nat>, at: int, media: bool)
    requires Walked(f, cuts, at, media) && at < |f| < at + 8
    ensures !IsWhole(f, "")
  {
    DeadEnd(f, cuts, at, media);
  }

  // ---------------------------------------------------------------------
  // A file that is cut short
  // ---------------------------------------------------------------------

  /** A box that ends with the file, whatever its length. */
  predicate IsOpen(f: seq<Byte>, at: nat)
    requires at + 8 <= |f|
  {
    Uint32(f, at) == 0
  }

  predicate ClosedLink(f: seq<Byte>, cuts: seq<nat>, k: nat)
    requires 0 < k < |cuts|
  {
    Link(f, cuts, k) && !IsOpen(f, cuts[k - 1])
  }

  /** A chain of boxes that all tell their size. */
  ghost predicate Closed(f: seq<Byte>, cuts: seq<nat>) {
    |cuts| > 0 && cuts[0] == 0 && forall k :: 0 < k < |cuts| ==> ClosedLink(f, cuts, k)
  }

  /** Where the header of a box ends. A 64-bit size may be smaller than its own header: nothing checks it. */
  function HeaderEnd(f: seq<Byte>, at: nat): nat
    requires at + 8 <= |f|
  {
    if Uint32(f, at) == 1 then at + 16 else at + 8
  }

  predicate LinkWithin(f: seq<Byte>, cuts: seq<nat>, k: nat, m: nat)
    requires 0 < k < |cuts|
  {
    ClosedLink(f, cuts, k) && cuts[k] <= m && HeaderEnd(f, cuts[k - 1]) <= m
  }

  /** The chain up to m, in closed boxes with all of their headers. */
  ghost predicate Within(f: seq<Byte>, cuts: seq<nat>, m: nat) {
    |cuts| > 0 && cuts[0] == 0 && forall k :: 0 < k < |cuts| ==> LinkWithin(f, cuts, k, m)
  }

  lemma WithinIsChain(f: seq<Byte>, cuts: seq<nat>, m: nat)
    requires Within(f, cuts, m)
    ensures Chain(f, cuts) && End(cuts) <= m
  {
    forall k | 0 < k < |cuts| ensures Link(f, cuts, k) && cuts[k] <= m {
      assert LinkWithin(f, cuts, k, m);
    }
  }

  /** A box that tells its size is the same box in a prefix that holds it. */
  lemma SameLink(f: seq<Byte>, m: nat, cuts: seq<nat>, k: nat)
    requires m <= |f| && 0 < k < |cuts|
    ensures ClosedLink(f[..m], cuts, k) <==> LinkWithin(f, cuts, k, m)
    ensures cuts[k - 1] + 8 <= m ==> IsMedia(f[..m], cuts[k - 1]) == IsMedia(f, cuts[k - 1])
    ensures cuts[k - 1] + 8 <= m ==> IsOpen(f[..m], cuts[k - 1]) == IsOpen(f, cuts[k - 1])
  {
    var at, g := cuts[k - 1], f[..m];
    if at + 8 <= m {
      assert g[at + 4..at + 8] == f[at + 4..at + 8];
      assert Uint32(g, at) == Uint32(f, at);
    }
  }

  lemma PrefixChain(f: seq<Byte>, m: nat, cuts: seq<nat>)
    requires m <= |f|
    ensures Closed(f[..m], cuts) <==> Within(f, cuts, m)
    ensures Closed(f[..m], cuts) ==> (HasMedia(f[..m], cuts) <==> HasMedia(f, cuts))
  {
    forall k: nat | 0 < k < |cuts| ensures ClosedLink(f[..m], cuts, k) <==> LinkWithin(f, cuts, k, m) {
      SameLink(f, m, cuts, k);
    }
    if Closed(f[..m], cuts) {
      PrefixMedia(f, m, cuts);
    }
  }

  lemma PrefixMedia(f: seq<Byte>, m: nat, cuts: seq<nat>)
    requires m <= |f| && Closed(f[..m], cuts) && Within(f, cuts, m)
    ensures HasMedia(f[..m], cuts) <==> HasMedia(f, cuts)
  {
    if k :| 0 < k < |cuts| && Link(f[..m], cuts, k) && IsMedia(f[..m], cuts[k - 1]) {
      assert LinkWithin(f, cuts, k, m);
      SameLink(f, m, cuts, k);
      assert Link(f, cuts, k);
    }
    if k :| 0 < k < |cuts| && Link(f, cuts, k) && IsMedia(f, cuts[k - 1]) {
      assert ClosedLink(f[..m], cuts, k);
      SameLink(f, m, cuts, k);
      assert Link(f[..m], cuts, k);
    }
  }

  /** Only the last box can be open. */
  lemma AllButTheLast(f: seq<Byte>, cuts: seq<nat>)
    requires Chain(f, cuts) && |cuts| > 1
    ensures Closed(f, cuts[..|cuts| - 1])
  {
    var n, init := |cuts| - 1, cuts[..|cuts| - 1];
    forall k | 0 < k < |init| ensures ClosedLink(f, init, k) {
      CutsRise(f, cuts, k, n);
      assert Link(f, cuts, k);
    }
  }

  /** The cut falls between boxes, after media. */
  ghost predicate BetweenBoxes(f: seq<Byte>, cuts: seq<nat>, m: nat) {
    exists k :: 0 < k < |cuts| && cuts[k] == m && Within(f, cuts[..k + 1], m) && HasMedia(f, cuts[..k + 1])
  }

  /** The last box is one that ends with the file, and the cut falls in it, after its header. */
  ghost predicate InOpenBox(f: seq<Byte>, cuts: seq<nat>, m: nat) {
    && |cuts| > 1 && Link(f, cuts, |cuts| - 1) && IsOpen(f, cuts[|cuts| - 2]) && cuts[|cuts| - 2] + 8 <= m
    && Within(f, cuts[..|cuts| - 1], m)
  }

  /**
   A whole file that has been cut short is refused, unless the cut falls between two boxes, after
   media, or in a last box that does not tell its size.
   */
  lemma CutShort(f: seq<Byte>, cuts: seq<nat>, m: nat)
    requires Splits(f, cuts) && 0 < m < |f|
    ensures IsWhole(f[..m], "") <==> BetweenBoxes(f, cuts, m) || InOpenBox(f, cuts, m)
  {
    hide Chain, HasMedia, Within, InOpenBox, Splits;
    if BetweenBoxes(f, cuts, m) {
      var k :| 0 < k < |cuts| && cuts[k] == m && Within(f, cuts[..k + 1], m) && HasMedia(f, cuts[..k + 1]);
      CutBetweenBoxes(f, cuts[..k + 1], m);
    }
    if InOpenBox(f, cuts, m) {
      CutInOpenBox(f, cuts, m);
    }
    if IsWhole(f[..m], "") {
      var short :| Splits(f[..m], short);
      WhereItWasCut(f, cuts, m, short);
    }
  }

  lemma CutBetweenBoxes(f: seq<Byte>, short: seq<nat>, m: nat)
    requires 0 < m <= |f| && Within(f, short, m) && End(short) == m && HasMedia(f, short)
    ensures IsWhole(f[..m], "")
  {
    PrefixChain(f, m, short);
    WithinIsChain(f[..m], short, m);
    assert Splits(f[..m], short);
  }

  lemma ClosedIsChain(f: seq<Byte>, cuts: seq<nat>)
    requires Closed(f, cuts)
    ensures Chain(f, cuts)
  {
    forall k | 0 < k < |cuts| ensures Link(f, cuts, k) {
      assert ClosedLink(f, cuts, k);
    }
  }

  lemma CutInOpenBox(f: seq<Byte>, cuts: seq<nat>, m: nat)
    requires Splits(f, cuts) && 0 < m < |f| && InOpenBox(f, cuts, m)
    ensures IsWhole(f[..m], "")
  {
    var g, n, init := f[..m], |cuts| - 1, cuts[..|cuts| - 1];
    PrefixChain(f, m, init);
    ClosedIsChain(g, init);
    WithinIsChain(f, init, m);
    SameLink(f, m, cuts, n);
    ChainWith(g, init, m);
    ChainWith(f, init, |f|);
    assert cuts == init + [|f|];
    assert Splits(g, init + [m]);
  }

  lemma WhereItWasCut(f: seq<Byte>, cuts: seq<nat>, m: nat, short: seq<nat>)
    requires Splits(f, cuts) && 0 < m < |f| && Splits(f[..m], short)
    ensures BetweenBoxes(f, cuts, m) || InOpenBox(f, cuts, m)
  {
    var n := |short| - 1;
    AllButTheLast(f[..m], short);
    assert Link(f[..m], short, n);
    if IsOpen(f[..m], short[n - 1]) {
      CutWasInOpenBox(f, cuts, m, short);
    } else {
      forall k | 0 < k < |short| ensures ClosedLink(f[..m], short, k) {
        assert k < n ==> ClosedLink(f[..m], short[..n], k);
      }
      CutWasBetweenBoxes(f, cuts, m, short);
    }
  }

  lemma CutWasInOpenBox(f: seq<Byte>, cuts: seq<nat>, m: nat, short: seq<nat>)
    requires Splits(f, cuts) && 0 < m < |f| && |short| > 1 && Closed(f[..m], short[..|short| - 1])
    requires Link(f[..m], short, |short| - 1) && IsOpen(f[..m], short[|short| - 2])
    ensures InOpenBox(f, cuts, m)
  {
    var init := short[..|short| - 1];
    PrefixChain(f, m, init);
    WithinIsChain(f, init, m);
    SameLink(f, m, short, |short| - 1);
    ChainWith(f, init, |f|);
    SameChain(f, init + [|f|], cuts);
    assert Link(f, cuts, |cuts| - 1);
    assert cuts[..|cuts| - 1] == init;
  }

  lemma CutWasBetweenBoxes(f: seq<Byte>, cuts: seq<nat>, m: nat, short: seq<nat>)
    requires Splits(f, cuts) && 0 < m < |f| && Closed(f[..m], short) && Splits(f[..m], short)
    ensures BetweenBoxes(f, cuts, m)
  {
    PrefixChain(f, m, short);
    WithinIsChain(f, short, m);
    Goes(f, short, cuts);
    forall k | 0 <= k < |short| ensures short[k] == cuts[k] {
      OneChain(f, short, cuts, k);
    }
    assert cuts[..|short| - 1 + 1] == short;
  }
}
