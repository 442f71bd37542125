/**
 Admission to a source's stream slots (internal/jellyfin/stream.go: claimSlot, grantIsIdle, revoke,
 revokeSource, sweepGrants). Times are seconds since Go's zero time, which is 0.
 */
module StreamSlots {
  import opened Collections

  datatype Grant = Grant(source: string, owner: string, created: nat, lastHit: nat, expires: nat)

  type Grants = map<string, Grant>

  const GrantIdle := 20

  /** grantIsIdle: the player has not read the stream for more than twenty seconds. */
  predicate Idle(g: Grant, now: nat) {
    var seen := if g.lastHit != 0 then g.lastHit else g.created;
    seen == 0 || now - seen > GrantIdle
  }

  /** The tokens of a source's grants. */
  function Of(grants: Grants, source: string): set<string> {
    set t | t in grants && grants[t].source == source
  }

  /** The viewer's own streams from the source that are still being read. */
  function Own(grants: Grants, source: string, owner: string, now: nat): set<string> {
    set t | t in grants && grants[t].source == source && !Idle(grants[t], now) && owner != "" && grants[t].owner == owner
  }

  /** Everyone else's streams from the source that are still being read. */
  function Others(grants: Grants, source: string, owner: string, now: nat): set<string> {
    set t | t in grants && grants[t].source == source && !Idle(grants[t], now) && !(owner != "" && grants[t].owner == owner)
  }

  function Without(grants: Grants, gone: set<string>): Grants {
    map t | t in grants && t !in gone :: grants[t]
  }

  function IdleOf(grants: Grants, source: string, now: nat): set<string> {
    set t | t in grants && grants[t].source == source && Idle(grants[t], now)
  }

  /**
   What claimSlot did: the idle grants of the source and `dropped`, the oldest of the viewer's own,
   are gone, and the new grant is there if there was room.
   */
  ghost predicate Claimed(before: Grants, max: int, tok: string, g: Grant, now: nat, ok: bool, after: Grants, dropped: set<string>) {
    if max <= 0 then ok && after == before[tok := g]
    else
      var own := Own(before, g.source, g.owner, now);
      var others := Others(before, g.source, g.owner, now);
      var left := Without(before, IdleOf(before, g.source, now) + dropped);
      // refused exactly when the streams of other viewers fill the limit
      && (ok <==> |others| < max)
      && after == (if ok then left[tok := g] else left)
      && Dropped(before, own, others, max, dropped)
  }

  /** The viewer's oldest streams go first, and no more of them than it takes to have room. */
  ghost predicate Dropped(grants: Grants, own: set<string>, others: set<string>, max: int, dropped: set<string>) {
    && dropped <= own
    && (forall d, k :: d in dropped && k in own - dropped ==>
          d in grants && k in grants && grants[d].created <= grants[k].created)
    && |dropped| == (if |own| + |others| < max then 0 else if |others| < max then |own| + |others| - max + 1 else |own|)
  }

  /** Each token once, the older grants first. */
  ghost predicate OldFirst(grants: Grants, sorted: seq<string>) {
    forall i, j :: 0 <= i < j < |sorted| ==>
      sorted[i] != sorted[j] && sorted[i] in grants && sorted[j] in grants && grants[sorted[i]].created <= grants[sorted[j]].created
  }

  lemma NextToGo(sorted: seq<string>, i: nat)
    requires i < |sorted| && forall i, j :: 0 <= i < j < |sorted| ==> sorted[i] != sorted[j]
    ensures Elems(sorted[..i + 1]) == Elems(sorted[..i]) + {sorted[i]}
    ensures sorted[i] !in Elems(sorted[..i]) && sorted[i] in Elems(sorted)
  {
    assert sorted[..i + 1] == sorted[..i] + [sorted[i]];
  }

  lemma WithoutTwice(grants: Grants, a: set<string>, b: set<string>)
    ensures Without(Without(grants, a), b) == Without(grants, a + b)
  {
  }

  lemma AddOne(grants: Grants, tok: string, g: Grant)
    requires tok !in grants
    ensures |Of(grants[tok := g], g.source)| == |Of(grants, g.source)| + 1
  {
    assert Of(grants[tok := g], g.source) == Of(grants, g.source) + {tok};
  }

  lemma FewerLeft(grants: Grants, gone: set<string>, source: string)
    ensures |Of(Without(grants, gone), source)| <= |Of(grants, source)|
  {
    SubsetSize(Of(Without(grants, gone), source), Of(grants, source));
  }

  lemma DropOne(grants: Grants, dropped: set<string>, t: string)
    ensures Without(grants, dropped) - {t} == Without(grants, dropped + {t})
  {
  }

  /** The first i of the viewer's streams are gone, and there was no room before each went. */
  ghost predicate Dropping(before: Grants, after: Grants, sorted: seq<string>, i: nat,
                           own: set<string>, others: set<string>, max: int) {
    && i <= |sorted|
    && Elems(sorted[..i]) <= own && |Elems(sorted[..i])| == i
    && after == Without(before, Elems(sorted[..i]))
    && (i > 0 ==> |own| + |others| - i + 1 >= max)
  }

  lemma NoneGone(grants: Grants, sorted: seq<string>, own: set<string>, others: set<string>, max: int)
    ensures Dropping(grants, grants, sorted, 0, own, others, max)
  {
    assert Elems(sorted[..0]) == {};
    assert Without(grants, {}) == grants;
  }

  lemma NextGone(before: Grants, after: Grants, sorted: seq<string>, i: nat, own: set<string>, others: set<string>, max: int)
    requires Dropping(before, after, sorted, i, own, others, max)
    requires i < |sorted| && Elems(sorted) == own && OldFirst(before, sorted)
    requires |own| + |others| - i >= max
    ensures Dropping(before, after - {sorted[i]}, sorted, i + 1, own, others, max)
  {
    NextToGo(sorted, i);
    DropOne(before, Elems(sorted[..i]), sorted[i]);
  }

  lemma AllGone(before: Grants, after: Grants, sorted: seq<string>, i: nat, own: set<string>, others: set<string>, max: int)
    requires Dropping(before, after, sorted, i, own, others, max)
    requires |sorted| == |own| && (i < |sorted| ==> |own| + |others| - i < max)
    requires Elems(sorted) == own && OldFirst(before, sorted)
    ensures Dropped(before, own, others, max, Elems(sorted[..i])) && after == Without(before, Elems(sorted[..i]))
  {
    OldestGo(before, own, sorted, i);
  }

  /** What is counted while the loop runs. */
  lemma LeftNow(before: Grants, after: Grants, sorted: seq<string>, i: nat, own: set<string>, others: set<string>, max: int,
                source: string)
    requires Dropping(before, after, sorted, i, own, others, max)
    requires own !! others && Of(before, source) == own + others
    ensures |Of(after, source)| == |own| + |others| - i
  {
    RoomLeft(before, source, own, others, Elems(sorted[..i]));
  }

  lemma OldestGo(grants: Grants, own: set<string>, sorted: seq<string>, i: nat)
    requires i <= |sorted| && OldFirst(grants, sorted) && Elems(sorted) == own
    ensures forall d, k :: d in Elems(sorted[..i]) && k in own - Elems(sorted[..i]) ==>
              d in grants && k in grants && grants[d].created <= grants[k].created
  {
    forall d, k | d in Elems(sorted[..i]) && k in own - Elems(sorted[..i])
      ensures d in grants && k in grants && grants[d].created <= grants[k].created
    {
      var a :| 0 <= a < i && sorted[..i][a] == d;
      var b :| 0 <= b < |sorted| && sorted[b] == k;
      assert forall c :: 0 <= c < i ==> sorted[c] in sorted[..i];
    }
  }

  /** The three kinds of grants make up the source's grants. */
  lemma Kinds(grants: Grants, source: string, owner: string, now: nat)
    ensures Of(Without(grants, IdleOf(grants, source, now)), source)
            == Own(grants, source, owner, now) + Others(grants, source, owner, now)
    ensures Own(grants, source, owner, now) !! Others(grants, source, owner, now)
  {
  }

  class Streams {
    var grants: Grants

    constructor ()
      ensures grants == map[]
    {
      grants := map[];
    }

    /** activeStreamsLocked */
    method Active(source: string) returns (n: nat)
      ensures n == |Of(grants, source)|
    {
      n := 0;
      var left := grants.Keys;
      ghost var seen: set<string> := {};
      while left != {}
        invariant left <= grants.Keys
        invariant seen == set t | t in grants && t !in left && grants[t].source == source
        invariant n == |seen|
        decreases left
      {
        var t :| t in left;
        left := left - {t};
        if grants[t].source == source {
          seen, n := seen + {t}, n + 1;
        }
      }
      assert seen == Of(grants, source);
    }

    /** The first loop of claimSlot: idle grants go, the viewer's own are collected. */
    method Release(source: string, owner: string, now: nat) returns (own: set<string>)
      modifies this
      ensures grants == Without(old(grants), IdleOf(old(grants), source, now))
      ensures own == Own(old(grants), source, owner, now)
    {
      own := {};
      var left := grants.Keys;
      while left != {}
        invariant left <= old(grants).Keys
        invariant grants == Without(old(grants), IdleOf(old(grants), source, now) - left)
        invariant own == Own(old(grants), source, owner, now) - left
        decreases left
      {
        var t :| t in left;
        left := left - {t};
        var o := grants[t];
        if o.source != source {
          continue;
        }
        if Idle(o, now) {
          grants := grants - {t};
        } else if owner != "" && o.owner == owner {
          own := own + {t};
        }
      }
      assert IdleOf(old(grants), source, now) - left == IdleOf(old(grants), source, now);
    }

    /** sort.Slice by creation time, whatever it does with ties. */
    method OldestFirst(toks: set<string>) returns (sorted: seq<string>)
      requires toks <= grants.Keys
      ensures |sorted| == |toks| && Elems(sorted) == toks && OldFirst(grants, sorted)
    {
      sorted := [];
      var left := toks;
      while left != {}
        invariant left <= toks && |sorted| + |left| == |toks|
        invariant forall t :: t in sorted <==> t in toks - left
        invariant forall i, j :: 0 <= i < j < |sorted| ==> sorted[i] != sorted[j]
        invariant forall i, j :: 0 <= i < j < |sorted| ==>
                    sorted[i] in grants && sorted[j] in grants && grants[sorted[i]].created <= grants[sorted[j]].created
        invariant forall i, t :: 0 <= i < |sorted| && t in left ==> sorted[i] in grants && grants[sorted[i]].created <= grants[t].created
        decreases left
      {
        var first := Oldest(left);
        assert first !in sorted;
        forall i | 0 <= i < |sorted| ensures sorted[i] != first {
          assert sorted[i] in sorted;
        }
        sorted, left := sorted + [first], left - {first};
      }
    }

    method Oldest(toks: set<string>) returns (first: string)
      requires toks <= grants.Keys && toks != {}
      ensures first in toks && forall t :: t in toks ==> grants[first].created <= grants[t].created
    {
      first :| first in toks;
      var left := toks - {first};
      while left != {}
        invariant left <= toks && first in toks
        invariant forall t :: t in toks - left ==> grants[first].created <= grants[t].created
        decreases left
      {
        var t :| t in left;
        left := left - {t};
        if grants[t].created < grants[first].created {
          first := t;
        }
      }
    }

    /** The second loop of claimSlot: the viewer's oldest streams go until there is room. */
    method MakeRoom(source: string, max: int, sorted: seq<string>, ghost own: set<string>, ghost others: set<string>)
      returns (ghost dropped: set<string>)
      requires max > 0 && own !! others && Of(grants, source) == own + others
      requires Elems(sorted) == own && |sorted| == |own| && OldFirst(grants, sorted)
      modifies this
      ensures grants == Without(old(grants), dropped)
      ensures Dropped(old(grants), own, others, max, dropped)
    {
      hide Dropping, Dropped, OldFirst, Without, Of, Elems;
      ghost var before := grants;
      NoneGone(before, sorted, own, others, max);
      var i := 0;
      while i < |sorted|
        invariant i <= |sorted| && Dropping(before, grants, sorted, i, own, others, max)
      {
        LeftNow(before, grants, sorted, i, own, others, max, source);
        var active := Active(source);
        if active < max {
          break;
        }
        NextGone(before, grants, sorted, i, own, others, max);
        grants := grants - {sorted[i]};
        i := i + 1;
      }
      dropped := Elems(sorted[..i]);
      AllGone(before, grants, sorted, i, own, others, max);
    }

    /**
     claimSlot: admits g under tok if there is room once idle and superseded streams are released. A stream
     was last seen when it was last read, or when it was created if it never was.
     Another viewer's stream seen within twenty seconds stays, and of the source none older than that does;
     the claim is refused if and only if such streams of others fill the limit. Of the viewer's own only
     the oldest go, `dropped`, and only as long as the limit is full.
     */
    method ClaimSlot(max: int, tok: string, g: Grant, now: nat) returns (ok: bool, ghost dropped: set<string>)
      requires tok !in grants
      modifies this
      ensures Claimed(old(grants), max, tok, g, now, ok, grants, dropped)
      ensures forall t :: t in old(grants) ==>
                var o := old(grants)[t];
                var used := if o.lastHit != 0 then now <= o.lastHit + 20 else o.created != 0 && now <= o.created + 20;
                if o.source != g.source then t in grants && grants[t] == o && t !in dropped
                else if !used then (max > 0 ==> t !in grants) && t !in dropped
                else if g.owner == "" || o.owner != g.owner then t in grants && grants[t] == o && t !in dropped
                else if t in dropped then t !in grants
                else t in grants && grants[t] == o
      ensures var others := set t | t in old(grants) && old(grants)[t].source == g.source
                                    && (g.owner == "" || old(grants)[t].owner != g.owner)
                                    && if old(grants)[t].lastHit != 0 then now <= old(grants)[t].lastHit + 20
                                       else old(grants)[t].created != 0 && now <= old(grants)[t].created + 20;
              !ok <==> max > 0 && |others| >= max
      ensures forall d, k :: d in dropped && k in old(grants) && k in grants && old(grants)[k].source == g.source
                             && g.owner != "" && old(grants)[k].owner == g.owner
                ==> d in old(grants) && old(grants)[d].created <= old(grants)[k].created
      ensures dropped != {} && ok ==> |Of(grants, g.source)| == max
      ensures !ok ==> forall t :: t in grants && grants[t].source == g.source ==> g.owner == "" || grants[t].owner != g.owner
      ensures (forall t :: t in grants && t != tok ==> t in old(grants))
              && (if ok then tok in grants && grants[tok] == g else tok !in grants)
      ensures max <= 0 ==> grants == old(grants)[tok := g]
    {
      hide Claimed, Idle, Of, IdleOf, Own, Others, Dropped, Without;
      dropped := {};
      if max > 0 {
        dropped := Supersede(max, g, now);
      }
      var active := Active(g.source);
      ok := !(max > 0 && active >= max);
      if ok {
        grants := grants[tok := g];
      }
      ClaimedIs(old(grants), max, tok, g, now, active, ok, grants, dropped);
      EachGrant(old(grants), max, tok, g, now, ok, grants, dropped);
      RefusedIff(old(grants), max, tok, g, now, ok, grants, dropped);
      OldestGone(old(grants), max, tok, g, now, ok, grants, dropped);
      AllGoneIfRefused(old(grants), max, tok, g, now, ok, grants, dropped);
      NoMoreThanNeeded(old(grants), max, tok, g, now, ok, grants, dropped);
    }

    /** Both loops of claimSlot. */
    method Supersede(max: int, g: Grant, now: nat) returns (ghost dropped: set<string>)
      requires max > 0
      modifies this
      ensures var before := old(grants);
              var own, others := Own(before, g.source, g.owner, now), Others(before, g.source, g.owner, now);
              && grants == Without(before, IdleOf(before, g.source, now) + dropped)
              && Dropped(before, own, others, max, dropped)
              && |Of(grants, g.source)| == |own| + |others| - |dropped|
    {
      ghost var before := grants;
      var own := Release(g.source, g.owner, now);
      ghost var others := Others(before, g.source, g.owner, now);
      Kinds(before, g.source, g.owner, now);
      var sorted := OldestFirst(own);
      dropped := MakeRoom(g.source, max, sorted, own, others);
      WithoutTwice(before, IdleOf(before, g.source, now), dropped);
      LeftAfterRelease(before, g.source, g.owner, now, dropped);
    }

    /** revoke */
    method Revoke(tok: string)
      modifies this
      ensures grants == old(grants) - {tok}
    {
      grants := grants - {tok};
    }

    /** revokeSource: every stream of the source ends, and no other. */
    method RevokeSource(source: string)
      modifies this
      ensures grants == Without(old(grants), Of(old(grants), source))
    {
      var toks := Of(grants, source);
      ghost var gone: set<string> := {};
      assert Without(old(grants), {}) == old(grants);
      while toks != {}
        invariant toks + gone == Of(old(grants), source)
        invariant grants == Without(old(grants), gone)
        decreases toks
      {
        var t :| t in toks;
        Revoke(t);
        toks, gone := toks - {t}, gone + {t};
      }
    }

    /** sweepGrants: expired streams end. */
    method SweepGrants(now: nat)
      modifies this
      ensures grants == Without(old(grants), set t | t in old(grants) && now > old(grants)[t].expires)
    {
      var toks := set t | t in grants && now > grants[t].expires;
      ghost var all, gone: set<string> := toks, {};
      assert Without(old(grants), {}) == old(grants);
      while toks != {}
        invariant toks + gone == all
        invariant grants == Without(old(grants), gone)
        decreases toks
      {
        var t :| t in toks;
        Revoke(t);
        toks, gone := toks - {t}, gone + {t};
      }
    }
  }

  /** Dropping some of the viewer's own streams leaves the rest of the source's streams. */
  lemma RoomLeft(grants: Grants, source: string, own: set<string>, others: set<string>, dropped: set<string>)
    requires own !! others && Of(grants, source) == own + others && dropped <= own
    ensures |Of(Without(grants, dropped), source)| == |own| + |others| - |dropped|
  {
    assert Of(Without(grants, dropped), source) == (own - dropped) + others;
    assert own == (own - dropped) + dropped;
  }

  // ---------------------------------------------------------------------
  // Runs
  // ---------------------------------------------------------------------

  /** What is left of the source's grants before the new one is added. */
  lemma LeftAfterRelease(before: Grants, source: string, owner: string, now: nat, dropped: set<string>)
    requires dropped <= Own(before, source, owner, now)
    ensures var left := Without(before, IdleOf(before, source, now) + dropped);
            |Of(left, source)| == |Own(before, source, owner, now)| + |Others(before, source, owner, now)| - |dropped|
  {
    var released := Without(before, IdleOf(before, source, now));
    WithoutTwice(before, IdleOf(before, source, now), dropped);
    Kinds(before, source, owner, now);
    RoomLeft(released, source, Own(before, source, owner, now), Others(before, source, owner, now), dropped);
  }

  /** An admission never takes the source past its limit, and a refusal adds nothing. */
  lemma ClaimKeepsLimit(before: Grants, max: int, tok: string, g: Grant, now: nat, ok: bool, after: Grants, dropped: set<string>)
    requires Claimed(before, max, tok, g, now, ok, after, dropped) && max > 0 && tok !in before
    ensures ok ==> |Of(after, g.source)| <= max
    ensures !ok ==> |Of(after, g.source)| <= |Of(before, g.source)|
  {
    LeftAfterRelease(before, g.source, g.owner, now, dropped);
    var gone := IdleOf(before, g.source, now) + dropped;
    if ok {
      AddOne(Without(before, gone), tok, g);
    } else {
      FewerLeft(before, gone, g.source);
    }
  }

  lemma ClaimedIs(before: Grants, max: int, tok: string, g: Grant, now: nat, active: nat, ok: bool, after: Grants, dropped: set<string>)
    requires max <= 0 ==> ok && after == before[tok := g]
    requires max > 0 ==>
               var own, others := Own(before, g.source, g.owner, now), Others(before, g.source, g.owner, now);
               var left := Without(before, IdleOf(before, g.source, now) + dropped);
               && Dropped(before, own, others, max, dropped) && active == |own| + |others| - |dropped|
               && (ok <==> active < max) && after == if ok then left[tok := g] else left
    ensures Claimed(before, max, tok, g, now, ok, after, dropped)
  {
  }

  // What claimSlot did, said of the times alone.

  lemma EachGrant(before: Grants, max: int, tok: string, g: Grant, now: nat, ok: bool, after: Grants, dropped: set<string>)
    requires Claimed(before, max, tok, g, now, ok, after, dropped) && tok !in before
    requires max <= 0 ==> dropped == {}
    ensures forall t :: t in before ==>
              var o := before[t];
              var used := if o.lastHit != 0 then now <= o.lastHit + 20 else o.created != 0 && now <= o.created + 20;
              if o.source != g.source then t in after && after[t] == o && t !in dropped
              else if !used then (max > 0 ==> t !in after) && t !in dropped
              else if g.owner == "" || o.owner != g.owner then t in after && after[t] == o && t !in dropped
              else if t in dropped then t !in after
              else t in after && after[t] == o
    ensures (forall t :: t in after && t != tok ==> t in before)
            && (if ok then tok in after && after[tok] == g else tok !in after)
    ensures max <= 0 ==> after == before[tok := g]
  {
  }

  lemma RefusedIff(before: Grants, max: int, tok: string, g: Grant, now: nat, ok: bool, after: Grants, dropped: set<string>)
    requires Claimed(before, max, tok, g, now, ok, after, dropped) && tok !in before
    requires max <= 0 ==> dropped == {}
    ensures var others := set t | t in before && before[t].source == g.source
                                  && (g.owner == "" || before[t].owner != g.owner)
                                  && if before[t].lastHit != 0 then now <= before[t].lastHit + 20
                                     else before[t].created != 0 && now <= before[t].created + 20;
            !ok <==> max > 0 && |others| >= max
  {
    var others := set t | t in before && before[t].source == g.source
                          && (g.owner == "" || before[t].owner != g.owner)
                          && if before[t].lastHit != 0 then now <= before[t].lastHit + 20
                             else before[t].created != 0 && now <= before[t].created + 20;
    assert others == Others(before, g.source, g.owner, now);
  }

  lemma OldestGone(before: Grants, max: int, tok: string, g: Grant, now: nat, ok: bool, after: Grants, dropped: set<string>)
    requires Claimed(before, max, tok, g, now, ok, after, dropped) && tok !in before
    requires max <= 0 ==> dropped == {}
    ensures forall d, k :: d in dropped && k in before && k in after && before[k].source == g.source
                           && g.owner != "" && before[k].owner == g.owner
              ==> d in before && before[d].created <= before[k].created
  {
  }

  lemma AllGoneIfRefused(before: Grants, max: int, tok: string, g: Grant, now: nat, ok: bool, after: Grants, dropped: set<string>)
    requires Claimed(before, max, tok, g, now, ok, after, dropped) && tok !in before
    requires max <= 0 ==> dropped == {}
    ensures !ok ==> forall t :: t in after && after[t].source == g.source ==> g.owner == "" || after[t].owner != g.owner
  {
    if !ok {
      AllOfThem(Own(before, g.source, g.owner, now), dropped);
    }
  }

  lemma AllOfThem(s: set<string>, part: set<string>)
    requires part <= s && |part| == |s|
    ensures part == s
  {
    forall x | x in s ensures x in part {
      if x !in part {
        SubsetSize(part, s - {x});
      }
    }
  }

  lemma NoMoreThanNeeded(before: Grants, max: int, tok: string, g: Grant, now: nat, ok: bool, after: Grants, dropped: set<string>)
    requires Claimed(before, max, tok, g, now, ok, after, dropped) && tok !in before
    requires max <= 0 ==> dropped == {}
    ensures dropped != {} && ok ==> |Of(after, g.source)| == max
  {
    hide Own, Others, IdleOf;
    if dropped != {} && ok {
      LeftAfterRelease(before, g.source, g.owner, now, dropped);
      assert |dropped| > 0;
      AddOne(Without(before, IdleOf(before, g.source, now) + dropped), tok, g);
    }
  }

  /** It never touches another source's streams, or other viewers' active streams. */
  lemma ClaimSparesOthers(before: Grants, max: int, tok: string, g: Grant, now: nat, ok: bool, after: Grants, dropped: set<string>)
    requires Claimed(before, max, tok, g, now, ok, after, dropped) && tok !in before
    ensures forall t :: t in before && (before[t].source != g.source || t in Others(before, g.source, g.owner, now)) ==>
              t in after && after[t] == before[t]
    ensures forall s :: s != g.source ==> Of(after, s) == Of(before, s)
  {
    forall s | s != g.source ensures Of(after, s) == Of(before, s) {
    }
  }

  /** A call of claimSlot under a fresh token; for `source` its limit is max. */
  ghost predicate Admission(before: Grants, after: Grants, source: string, max: int,
                            m: int, tok: string, g: Grant, now: nat, ok: bool, dropped: set<string>) {
    tok !in before && (g.source == source ==> m == max) && Claimed(before, m, tok, g, now, ok, after, dropped)
  }

  /** What can happen to the grants between two moments, the limit of `source` being max. */
  ghost predicate Next(before: Grants, after: Grants, source: string, max: int) {
    || (exists m, tok, g, now, ok, dropped :: Admission(before, after, source, max, m, tok, g, now, ok, dropped))
    || (exists gone :: after == Without(before, gone))
    || (exists tok, hit :: tok in before && after == before[tok := before[tok].(lastHit := hit)])
  }

  ghost predicate IsRun(run: seq<Grants>, source: string, max: int) {
    |run| > 0 && run[0] == map[] && forall i :: 0 <= i < |run| - 1 ==> Next(run[i], run[i + 1], source, max)
  }

  /** In every reachable state a source with a limit has at most that many streams. */
  lemma {:induction false} LimitHolds(run: seq<Grants>, source: string, max: int)
    requires IsRun(run, source, max) && max > 0
    ensures |Of(run[|run| - 1], source)| <= max
  {
    var n := |run| - 1;
    if n == 0 {
      assert Of(run[0], source) == {};
    } else {
      LimitHolds(run[..n], source, max);
      StepKeepsLimit(run[n - 1], run[n], source, max);
    }
  }

  lemma StepKeepsLimit(before: Grants, after: Grants, source: string, max: int)
    requires Next(before, after, source, max) && max > 0 && |Of(before, source)| <= max
    ensures |Of(after, source)| <= max
  {
    if m, tok, g, now, ok, dropped :| Admission(before, after, source, max, m, tok, g, now, ok, dropped) {
      if m > 0 {
        ClaimKeepsLimit(before, m, tok, g, now, ok, after, dropped);
      }
      ClaimSparesOthers(before, m, tok, g, now, ok, after, dropped);
    } else if gone :| after == Without(before, gone) {
      FewerLeft(before, gone, source);
    } else {
      assert Of(after, source) == Of(before, source);
    }
  }
}
