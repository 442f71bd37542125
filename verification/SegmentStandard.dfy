/**
 What section 4.2 of ISO/IEC 14496-12 calls a file of boxes, and exactly when a segment that
 completeSegment (internal/jellyfin/relay.go) accepts is one.
 */
module SegmentStandard {
  import opened SegmentCheck

  // ---------------------------------------------------------------------
  // The standard
  // ---------------------------------------------------------------------

  predicate IsUuid(f: seq<Byte>, at: nat)
    requires at + 8 <= |f|
  {
    f[at + 4..at + 8] == [117, 117, 105, 100] // "uuid"
  }

  /** The header: size and type, and as the case may be a 64-bit size and an extended type. */
  function HeaderLength(f: seq<Byte>, at: nat): nat
    requires at + 8 <= |f|
  {
    8 + (if Uint32(f, at) == 1 then 8 else 0) + (if IsUuid(f, at) then 16 else 0)
  }

  /** The size counts all of the box, header included; only the last box of a file may leave it open. */
  predicate StandardBox(box: seq<Byte>, last: bool) {
    && 8 <= |box| && HeaderLength(box, 0) <= |box|
    && match Uint32(box, 0) {
       case 0 => last
       case 1 => Uint64(box, 8) == |box|
       case size => size == |box|
       }
  }

  function Joined(boxes: seq<seq<Byte>>): seq<Byte> {
    if boxes == [] then [] else Joined(boxes[..|boxes| - 1]) + boxes[|boxes| - 1]
  }

  ghost predicate AreBoxes(boxes: seq<seq<Byte>>) {
    forall i :: 0 <= i < |boxes| ==> StandardBox(boxes[i], i == |boxes| - 1)
  }

  predicate MediaBox(box: seq<Byte>) {
    8 <= |box| && IsMedia(box, 0)
  }

  ghost predicate SomeMedia(boxes: seq<seq<Byte>>, n: nat)
    requires n <= |boxes|
  {
    exists i :: 0 <= i < n && MediaBox(boxes[i])
  }

  /** The file is box after box, and one of them holds media. */
  ghost predicate MadeOf(f: seq<Byte>, boxes: seq<seq<Byte>>) {
    Joined(boxes) == f && AreBoxes(boxes) && SomeMedia(boxes, |boxes|)
  }

  ghost predicate IsStandard(f: seq<Byte>) {
    exists boxes :: MadeOf(f, boxes)
  }

  // ---------------------------------------------------------------------
  // Which accepted files are standard
  // ---------------------------------------------------------------------

  /** The box between two cuts has room for its own header. */
  predicate Fits(f: seq<Byte>, cuts: seq<nat>, k: nat)
    requires 0 < k < |cuts|
  {
    cuts[k - 1] + 8 <= |f| && cuts[k - 1] + HeaderLength(f, cuts[k - 1]) <= cuts[k]
  }

  ghost predicate AllFit(f: seq<Byte>, cuts: seq<nat>) {
    forall k :: 0 < k < |cuts| ==> Fits(f, cuts, k)
  }

  lemma SameType(f: seq<Byte>, at: nat, next: nat)
    requires at + 8 <= next <= |f|
    ensures f[at..next][4..8] == f[at + 4..at + 8]
  {
    var box := f[at..next];
    assert forall i :: 0 <= i < |box| ==> box[i] == f[at + i];
    assert forall i :: 0 <= i < 4 ==> box[4..8][i] == box[4 + i] == f[at + 4 + i] == f[at + 4..at + 8][i];
  }

  /** A box of the code that has room for its header is a box of the standard. */
  lemma SameBox(f: seq<Byte>, at: nat, next: nat)
    requires at <= next <= |f|
    ensures StandardBox(f[at..next], next == |f|)
         <==> BoxAt(f, at, next) && at + HeaderLength(f, at) <= next
    ensures at + 8 <= next ==> MediaBox(f[at..next]) == IsMedia(f, at)
  {
    var box := f[at..next];
    if at + 8 <= next {
      SameType(f, at, next);
      assert Uint32(box, 0) == Uint32(f, at) && HeaderLength(box, 0) == HeaderLength(f, at);
      if at + 16 <= next {
        assert Uint64(box, 8) == Uint64(f, at + 8);
      }
    }
  }

  lemma {:induction false} JoinedPrefix(boxes: seq<seq<Byte>>, n: nat)
    requires n <= |boxes|
    ensures Joined(boxes[..n]) <= Joined(boxes)
    decreases |boxes|
  {
    if n < |boxes| {
      var rest := boxes[..|boxes| - 1];
      JoinedPrefix(rest, n);
      assert rest[..n] == boxes[..n];
    } else {
      assert boxes[..n] == boxes;
    }
  }

  /** Box n lies where the boxes before it end. */
  lemma NthBox(boxes: seq<seq<Byte>>, n: nat)
    requires n < |boxes| && AreBoxes(boxes)
    ensures var f, at, next := Joined(boxes), |Joined(boxes[..n])|, |Joined(boxes[..n + 1])|;
            at < next <= |f| && f[at..next] == boxes[n] && (next == |f| <==> n == |boxes| - 1)
  {
    hide StandardBox, Uint32, Uint64, HeaderLength;
    var f, at, next := Joined(boxes), |Joined(boxes[..n])|, |Joined(boxes[..n + 1])|;
    assert boxes[..n + 1][..n] == boxes[..n];
    JoinedPrefix(boxes, n + 1);
    NotEmpty(boxes[n], n == |boxes| - 1);
    assert f[at..next] == Joined(boxes[..n + 1])[at..next] == boxes[n];
    if n + 1 < |boxes| {
      JoinedPrefix(boxes, |boxes| - 1);
      var rest := boxes[..|boxes| - 1];
      JoinedPrefix(rest, n + 1);
      assert rest[..n + 1] == boxes[..n + 1];
      NotEmpty(boxes[|boxes| - 1], true);
    } else {
      assert boxes[..n + 1] == boxes;
    }
  }

  lemma NotEmpty(box: seq<Byte>, last: bool)
    requires StandardBox(box, last)
    ensures |box| >= 8
  {
  }

  /** The cuts between the first n boxes. */
  lemma {:induction false} CutsOf(boxes: seq<seq<Byte>>, n: nat) returns (cuts: seq<nat>)
    requires n <= |boxes| && AreBoxes(boxes)
    ensures var f := Joined(boxes); Chain(f, cuts) && AllFit(f, cuts) && (HasMedia(f, cuts) <==> SomeMedia(boxes, n))
    ensures End(cuts) == |Joined(boxes[..n])|
  {
    hide Uint32, Uint64, IsMedia, HeaderLength, BoxAt, StandardBox, MediaBox;
    if n == 0 {
      cuts := [0];
    } else {
      var f, at, next := Joined(boxes), |Joined(boxes[..n - 1])|, |Joined(boxes[..n])|;
      cuts := CutsOf(boxes, n - 1);
      NthBox(boxes, n - 1);
      assert StandardBox(boxes[n - 1], n == |boxes|);
      SameBox(f, at, next);
      BoxHasHeader(f, at, next);
      ChainWith(f, cuts, next);
      OneMoreFits(f, cuts, next);
      cuts := cuts + [next];
    }
  }

  lemma BoxHasHeader(f: seq<Byte>, at: nat, next: nat)
    requires BoxAt(f, at, next)
    ensures at + 8 <= next <= |f|
  {
  }

  lemma OneMoreFits(f: seq<Byte>, cuts: seq<nat>, next: nat)
    requires cuts != [] && AllFit(f, cuts) && End(cuts) + 8 <= |f| && End(cuts) + HeaderLength(f, End(cuts)) <= next
    ensures AllFit(f, cuts + [next])
  {
    hide HeaderLength;
    var more := cuts + [next];
    forall k | 0 < k < |more| ensures Fits(f, more, k) {
      if k < |cuts| {
        assert Fits(f, cuts, k);
      }
    }
  }

  ghost predicate Rises(f: seq<Byte>, cuts: seq<nat>) {
    forall i, j :: 0 <= i < j < |cuts| ==> cuts[i] < cuts[j] <= |f|
  }

  lemma ChainRises(f: seq<Byte>, cuts: seq<nat>)
    requires Chain(f, cuts)
    ensures Rises(f, cuts)
  {
    forall i, j | 0 <= i < j < |cuts| ensures cuts[i] < cuts[j] <= |f| {
      CutsRise(f, cuts, i, j);
    }
  }

  /** What lies between the first n cuts. */
  ghost function BoxesOf(f: seq<Byte>, cuts: seq<nat>, n: nat): (boxes: seq<seq<Byte>>)
    requires n < |cuts| && Rises(f, cuts)
    ensures |boxes| == n && forall i :: 0 <= i < n ==> cuts[i] < cuts[i + 1] && boxes[i] == f[cuts[i]..cuts[i + 1]]
  {
    if n == 0 then [] else
      assert cuts[n - 1] < cuts[n];
      BoxesOf(f, cuts, n - 1) + [f[cuts[n - 1]..cuts[n]]]
  }

  lemma {:induction false} JoinedBack(f: seq<Byte>, cuts: seq<nat>, n: nat)
    requires n < |cuts| && cuts[0] == 0 && Rises(f, cuts)
    ensures cuts[n] <= |f| && Joined(BoxesOf(f, cuts, n)) == f[..cuts[n]]
  {
    if n > 0 {
      JoinedBack(f, cuts, n - 1);
      var boxes := BoxesOf(f, cuts, n);
      assert boxes[..n - 1] == BoxesOf(f, cuts, n - 1);
      assert f[..cuts[n - 1]] + f[cuts[n - 1]..cuts[n]] == f[..cuts[n]];
    }
  }

  lemma NthIsBox(f: seq<Byte>, cuts: seq<nat>, i: nat)
    requires Chain(f, cuts) && AllFit(f, cuts) && End(cuts) == |f| && i < |cuts| - 1
    ensures cuts[i] + 8 <= cuts[i + 1] <= |f|
    ensures StandardBox(f[cuts[i]..cuts[i + 1]], i == |cuts| - 2)
    ensures IsMedia(f, cuts[i]) ==> MediaBox(f[cuts[i]..cuts[i + 1]])
  {
    hide Uint32, Uint64, IsMedia, HeaderLength, StandardBox, MediaBox;
    ChainRises(f, cuts);
    assert Link(f, cuts, i + 1) && Fits(f, cuts, i + 1);
    SameBox(f, cuts[i], cuts[i + 1]);
  }

  /** A file that the code takes apart into boxes with room for their headers is what the standard asks for. */
  lemma FittingIsStandard(f: seq<Byte>, cuts: seq<nat>)
    requires Splits(f, cuts) && AllFit(f, cuts)
    ensures IsStandard(f)
  {
    hide IsMedia, AllFit, Chain, Rises, StandardBox, MediaBox, BoxAt;
    var n := |cuts| - 1;
    ChainRises(f, cuts);
    var boxes := BoxesOf(f, cuts, n);
    StartsAtZero(f, cuts);
    JoinedBack(f, cuts, n);
    forall i: nat | i < n ensures StandardBox(boxes[i], i == n - 1) {
      NthIsBox(f, cuts, i);
    }
    var i := FindMedia(f, cuts);
    NthIsBox(f, cuts, i);
    assert MediaBox(boxes[i]);
    assert f[..|f|] == f;
    assert MadeOf(f, boxes);
  }

  lemma FindMedia(f: seq<Byte>, cuts: seq<nat>) returns (i: nat)
    requires HasMedia(f, cuts)
    ensures i < |cuts| - 1 && cuts[i] + 8 <= |f| && IsMedia(f, cuts[i])
  {
    hide IsMedia;
    var k :| 0 < k < |cuts| && Link(f, cuts, k) && IsMedia(f, cuts[k - 1]);
    i := k - 1;
  }

  lemma StartsAtZero(f: seq<Byte>, cuts: seq<nat>)
    requires Chain(f, cuts)
    ensures cuts[0] == 0
  {
  }

  /** Every segment that is box after box with media is accepted... */
  lemma StandardSplits(f: seq<Byte>) returns (cuts: seq<nat>)
    requires IsStandard(f)
    ensures Splits(f, cuts) && AllFit(f, cuts) && IsWhole(f, "")
  {
    hide StandardBox, HeaderLength, BoxAt, MediaBox;
    var boxes :| MadeOf(f, boxes);
    cuts := CutsOf(boxes, |boxes|);
    assert boxes[..|boxes|] == boxes;
    assert Splits(f, cuts);
    CutsRise(f, cuts, 0, |cuts| - 1);
  }

  /** ...and an accepted one is so if and only if every one of its boxes has room for its own header. */
  lemma StandardIff(f: seq<Byte>, cuts: seq<nat>)
    requires Splits(f, cuts)
    ensures IsStandard(f) <==> AllFit(f, cuts)
  {
    hide HeaderLength, StandardBox, BoxAt;
    if IsStandard(f) {
      var fitting := StandardSplits(f);
      SameChain(f, cuts, fitting);
    }
    if AllFit(f, cuts) {
      FittingIsStandard(f, cuts);
    }
  }

  /** Sixteen bytes, the last eight of them a 64-bit size that says eight. */
  const TooSmall: seq<Byte> := [0, 0, 0, 1, 109, 100, 97, 116, 0, 0, 0, 0, 0, 0, 0, 8]

  lemma TooSmallIsAccepted()
    ensures IsWhole(TooSmall, "") && !IsStandard(TooSmall)
  {
    hide Uint32, Uint64, IsMedia, HeaderLength, BoxAt, IsStandard;
    var f, cuts := TooSmall, [0, 8, 16];
    FirstBoxOfTooSmall();
    SecondBoxOfTooSmall();
    assert Link(f, cuts, 1) && Link(f, cuts, 2);
    assert Splits(f, cuts);
    StandardIff(f, cuts);
    assert !Fits(f, cuts, 1);
  }

  lemma FirstBoxOfTooSmall()
    ensures BoxAt(TooSmall, 0, 8) && IsMedia(TooSmall, 0) && HeaderLength(TooSmall, 0) == 16
  {
    assert TooSmall[4..8] == [109, 100, 97, 116];
    assert Uint32(TooSmall, 0) == 1;
    assert Uint32(TooSmall, 8) == 0 && Uint32(TooSmall, 12) == 8;
  }

  lemma SecondBoxOfTooSmall()
    ensures BoxAt(TooSmall, 8, 16)
  {
    assert Uint32(TooSmall, 8) == 0;
  }
}
