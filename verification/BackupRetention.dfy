/**
 Retention with no other writer (internal/backup/service.go: groupBackups, prune, deleteKeys).
 Times are counted from Go's zero time, so an empty group's newest object is at 0.
 */
module BackupRetention {
  import opened BackupIds
  import opened Collections
  import P = BackupProtocol

  /** A storage key: inside a backup's folder, or anything else at the destination. */
  datatype Key = InBackup(id: string, name: string) | Loose(key: string)

  datatype Item = Item(key: Key, modified: nat)

  datatype Group = Group(names: seq<string>, complete: bool, newest: nat)

  type Objects = map<Key, nat>

  predicate Backup(k: Key) {
    k.InBackup? && ValidId(k.id)
  }

  /** Backup id is listed: its manifest is stored. */
  predicate Complete(objects: Objects, id: string) {
    ValidId(id) && InBackup(id, P.ManifestName) in objects
  }

  /** Some object of backup id is stored. */
  ghost predicate Present(objects: Objects, id: string) {
    ValidId(id) && exists name :: InBackup(id, name) in objects
  }

  /** An upload without a manifest whose newest object is older than the cutoff. */
  ghost predicate Abandoned(objects: Objects, id: string, cutoff: int) {
    && Present(objects, id) && !Complete(objects, id)
    && forall name :: InBackup(id, name) in objects ==> objects[InBackup(id, name)] < cutoff
  }

  /** g is what a listing of objects says about backup id. */
  ghost predicate Describes(objects: Objects, id: string, g: Group) {
    && g.names != []
    && (forall name :: name in g.names <==> InBackup(id, name) in objects)
    && (g.complete <==> InBackup(id, P.ManifestName) in objects)
    && (forall name :: name in g.names ==> objects[InBackup(id, name)] <= g.newest)
    && (exists name :: name in g.names && objects[InBackup(id, name)] == g.newest)
  }

  /** groupBackups of a listing. */
  ghost predicate Groups(objects: Objects, groups: map<string, Group>) {
    && (forall id :: id in groups <==> Present(objects, id))
    && (forall id :: id in groups ==> Describes(objects, id, groups[id]))
  }

  /** g with one more object. */
  function Grown(g: Group, name: string, modified: nat): Group {
    Group(g.names + [name], g.complete || name == P.ManifestName, if modified > g.newest then modified else g.newest)
  }

  lemma GroupGrows(objects: Objects, groups: map<string, Group>, k: Key, modified: nat)
    requires Groups(objects, groups) && k !in objects && Backup(k)
    ensures var g := if k.id in groups then groups[k.id] else Group([], false, 0);
            Groups(objects[k := modified], groups[k.id := Grown(g, k.name, modified)])
  {
    var g := if k.id in groups then groups[k.id] else Group([], false, 0);
    var g' := Grown(g, k.name, modified);
    var more := objects[k := modified];
    assert k.name in g'.names;
    assert k.id !in groups ==> forall name :: InBackup(k.id, name) !in objects;
    assert Describes(more, k.id, g') by {
      if k.id in groups {
        var top :| top in g.names && objects[InBackup(k.id, top)] == g.newest;
        assert top in g'.names;
      }
    }
    forall id | id != k.id ensures Present(more, id) <==> Present(objects, id) {
      if Present(more, id) {
        var name :| InBackup(id, name) in more;
        assert InBackup(id, name) in objects;
      }
    }
    forall id | id in groups && id != k.id ensures Describes(more, id, groups[id]) {
      assert Describes(objects, id, groups[id]);
    }
  }

  /** Objects outside every backup change no group. */
  lemma LooseIsIgnored(objects: Objects, groups: map<string, Group>, k: Key, modified: nat)
    requires Groups(objects, groups) && k !in objects && !Backup(k)
    ensures Groups(objects[k := modified], groups)
  {
    var more := objects[k := modified];
    forall id ensures Present(more, id) <==> Present(objects, id) {
      if Present(more, id) {
        var name :| InBackup(id, name) in more;
        assert InBackup(id, name) in objects;
      }
    }
    forall id | id in groups ensures Describes(more, id, groups[id]) {
      assert Describes(objects, id, groups[id]);
    }
  }

  function Stored(items: seq<Item>): (o: Objects)
    ensures forall k :: k in o <==> exists i :: 0 <= i < |items| && items[i].key == k
  {
    if items == [] then map[]
    else
      var last := items[|items| - 1];
      Stored(items[..|items| - 1])[last.key := last.modified]
  }

  /** groupBackups: one pass over the listing. */
  method GroupBackups(items: seq<Item>) returns (groups: map<string, Group>)
    requires forall i, j :: 0 <= i < j < |items| ==> items[i].key != items[j].key
    ensures Groups(Stored(items), groups)
  {
    groups := map[];
    for i := 0 to |items|
      invariant Groups(Stored(items[..i]), groups)
    {
      var it := items[i];
      assert items[..i + 1][..i] == items[..i];
      if it.key.InBackup? && ValidId(it.key.id) {
        GroupGrows(Stored(items[..i]), groups, it.key, it.modified);
        var g := if it.key.id in groups then groups[it.key.id] else Group([], false, 0);
        groups := groups[it.key.id := Grown(g, it.key.name, it.modified)];
      } else {
        LooseIsIgnored(Stored(items[..i]), groups, it.key, it.modified);
      }
    }
    assert items[..|items|] == items;
  }

  /** What is left once every object of the backups in `gone` is deleted. */
  function Without(objects: Objects, gone: set<string>): Objects {
    map k | k in objects && !(k.InBackup? && k.id in gone) :: objects[k]
  }

  /** Nothing is added or changed, and nothing outside the backups in `gone` is deleted. */
  ghost predicate OnlyFrom(before: Objects, after: Objects, gone: set<string>) {
    && (forall k :: k in after ==> k in before && after[k] == before[k])
    && (forall k :: k in before && !(k.InBackup? && k.id in gone) ==> k in after)
  }

  /** kept are the `keep` largest of the ids (all of them when keep is not positive). */
  ghost predicate Newest(ids: set<string>, keep: int, kept: set<string>) {
    && kept <= ids
    && |kept| == (if keep > 0 && |ids| > keep then keep else |ids|)
    && forall k, d :: k in kept && d in ids - kept ==> Less(d, k)
  }

  ghost function CompleteIds(objects: Objects): set<string> {
    set k | k in objects && k.InBackup? && Complete(objects, k.id) :: k.id
  }

  ghost function AbandonedIds(objects: Objects, cutoff: int): set<string> {
    set k | k in objects && k.InBackup? && Abandoned(objects, k.id, cutoff) :: k.id
  }

  lemma NewestAre(ids: set<string>, keep: int, kept: set<string>)
    requires Newest(ids, keep, kept)
    ensures |kept| == if 0 < keep < |ids| then keep else |ids|
    ensures forall k, d :: k in kept && d in ids && d !in kept ==> Less(d, k)
  {
  }

  /** After retention the listed backups are exactly those it kept. */
  lemma KeptAreListed(objects: Objects, keep: int, kept: set<string>, cutoff: int)
    requires Newest(CompleteIds(objects), keep, kept)
    ensures CompleteIds(Without(objects, CompleteIds(objects) - kept + AbandonedIds(objects, cutoff))) == kept
  {
    var complete := CompleteIds(objects);
    var after := Without(objects, complete - kept + AbandonedIds(objects, cutoff));
    forall id ensures id in CompleteIds(after) <==> id in kept {
      if id in kept {
        assert Complete(objects, id);
        assert InBackup(id, P.ManifestName) in after;
      }
      if id in CompleteIds(after) {
        assert Complete(after, id) && Complete(objects, id);
        assert InBackup(id, P.ManifestName) in objects;
      }
    }
  }

  /** What the groups of a listing say: which backups are complete and which uploads are abandoned. */
  lemma GroupsTell(objects: Objects, groups: map<string, Group>, cutoff: int)
    requires Groups(objects, groups)
    ensures (set id | id in groups && groups[id].complete) == CompleteIds(objects)
    ensures (set id | id in groups && !groups[id].complete && groups[id].newest < cutoff) == AbandonedIds(objects, cutoff)
  {
    forall id | id in groups
      ensures groups[id].complete <==> id in CompleteIds(objects)
      ensures !groups[id].complete && groups[id].newest < cutoff <==> id in AbandonedIds(objects, cutoff)
    {
      var g := groups[id];
      assert Describes(objects, id, g) && Present(objects, id);
      if g.complete {
        assert InBackup(id, P.ManifestName) in objects;
      }
      var top :| top in g.names && objects[InBackup(id, top)] == g.newest;
      assert InBackup(id, top) in objects;
      if g.newest < cutoff && !g.complete {
        assert Abandoned(objects, id, cutoff);
      }
    }
  }

  /** Only backups in `gone` have lost anything and, when exact, those are gone altogether. */
  ghost predicate Dropped(before: Objects, after: Objects, gone: set<string>, exact: bool) {
    OnlyFrom(before, after, gone) && (exact ==> after == Without(before, gone))
  }

  lemma NothingDropped(before: Objects)
    ensures Dropped(before, before, {}, true)
  {
  }

  lemma DropsOne(before: Objects, o: Objects, o': Objects, gone: set<string>, id: string, names: seq<string>)
    requires OnlyFrom(before, o, gone) && OnlyFrom(o, o', {id})
    ensures OnlyFrom(before, o', gone + {id})
    ensures (forall name :: InBackup(id, name) in before ==> name in names) && o == Without(before, gone)
            && (forall k :: k in o' <==> k in o && !(k.InBackup? && k.id == id && k.name in names)) ==>
              o' == Without(before, gone + {id})
  {
  }

  lemma ElemsNext(gone: set<string>, ids: seq<string>, i: nat)
    requires i < |ids|
    ensures gone + Elems(ids[..i + 1]) == gone + Elems(ids[..i]) + {ids[i]}
  {
    assert ids[..i + 1] == ids[..i] + [ids[i]];
  }

  /** Exactly these names of backup id are gone. */
  ghost predicate Deleted(before: Objects, after: Objects, id: string, names: seq<string>) {
    && (forall k :: k in after <==> k in before && !(k.InBackup? && k.id == id && k.name in names))
    && (forall k :: k in after ==> after[k] == before[k])
  }

  /** While the manifest is still there, none of the files it may list has been deleted. */
  lemma InterruptedSafely(before: Objects, after: Objects, id: string, names: seq<string>, i: nat)
    requires P.ManifestName in names && i <= |P.DeleteOrder(names)|
    requires Deleted(before, after, id, P.DeleteOrder(names)[..i])
    ensures InBackup(id, P.ManifestName) in after ==>
              forall n :: !P.ManifestLike(n) && InBackup(id, n) in before ==> InBackup(id, n) in after
  {
    var order := P.DeleteOrder(names);
    P.ManifestGoesFirst(names);
    var front :| 0 <= front < |order| && order[front] == P.ManifestName && forall j :: 0 <= j < front ==> P.ManifestLike(order[j]);
    if i > front {
      assert order[..i][front] == P.ManifestName;
    } else {
      forall n | n in order[..i] ensures P.ManifestLike(n) {
        var j :| 0 <= j < i && order[..i][j] == n;
      }
    }
  }

  /** No object of backup id is left. */
  ghost predicate Gone(objects: Objects, id: string) {
    forall name :: InBackup(id, name) !in objects
  }

  /** Those of the ids that still have an object. */
  ghost function StillThere(objects: Objects, ids: seq<string>): set<string> {
    set id | id in ids && !Gone(objects, id)
  }

  /** Dealing with one more backup leaves no more behind than that one, and not that one if it is gone. */
  lemma OneMoreDealtWith(o: Objects, o': Objects, ids: seq<string>, i: nat)
    requires i < |ids| && OnlyFrom(o, o', {ids[i]})
    ensures |StillThere(o', ids[..i + 1])| <= |StillThere(o, ids[..i])| + if Gone(o', ids[i]) then 0 else 1
  {
    var was := StillThere(o, ids[..i]);
    var more := if Gone(o', ids[i]) then was else was + {ids[i]};
    assert ids[..i + 1] == ids[..i] + [ids[i]];
    forall id | id in StillThere(o', ids[..i + 1]) ensures id in more {
      var name :| InBackup(id, name) in o';
      assert InBackup(id, name) in o;
    }
    SubsetSize(StillThere(o', ids[..i + 1]), more);
  }

  lemma NoneLeftBehind(o: Objects, ids: seq<string>)
    ensures StillThere(o, ids[..0]) == {}
  {
  }

  /** What the first loop of prune left behind, the second does not bring back. */
  lemma LeftBehindByBoth(o1: Objects, o2: Objects, a: seq<string>, b: seq<string>)
    requires forall k :: k in o2 ==> k in o1
    ensures |StillThere(o2, a + b)| <= |StillThere(o1, a)| + |StillThere(o2, b)|
  {
    forall id | id in StillThere(o2, a) ensures id in StillThere(o1, a) {
      var name :| InBackup(id, name) in o2;
      assert InBackup(id, name) in o1;
    }
    SubsetSize(StillThere(o2, a + b), StillThere(o1, a) + StillThere(o2, b));
    assert |StillThere(o1, a) + StillThere(o2, b)| <= |StillThere(o1, a)| + |StillThere(o2, b)|;
  }

  datatype PutResult = Kept | NotKept | Crashed

  class Bucket {
    var objects: Objects
    /** How many deletes and stores have reported an error, and how often the machine has stopped. */
    ghost var failures: nat
    ghost var stops: nat
    /** The keys whose Put may report an error although it has stored its object. */
    const torn: Key -> bool

    constructor (objects: Objects, torn: Key -> bool)
      ensures this.objects == objects && this.torn == torn
    {
      this.objects, this.torn, failures, stops := objects, torn, 0, 0;
    }

    /** store.Put: atomic; the machine may stop before or after it, and an error may come too late. */
    method Put(k: Key, now: nat) returns (r: PutResult)
      modifies this
      ensures failures == old(failures) + (if r.NotKept? then 1 else 0) && stops == old(stops) + if r.Crashed? then 1 else 0
      ensures r.Kept? ==> objects == old(objects)[k := now]
      ensures r.NotKept? ==> objects == old(objects) || (torn(k) && objects == old(objects)[k := now])
      ensures r.Crashed? ==> objects == old(objects) || objects == old(objects)[k := now]
    {
      var fails, crashes, tears: bool := *, *, *;
      if fails {
        r := if crashes then Crashed else NotKept;
      } else {
        objects := objects[k := now];
        r := if torn(k) && tears then NotKept else if crashes then Crashed else Kept;
      }
      if r.NotKept? {
        failures := failures + 1;
      }
      if r.Crashed? {
        stops := stops + 1;
      }
    }

    /** store.Delete: deleting what is not there succeeds. */
    method Delete(k: Key) returns (ok: bool)
      modifies `objects, `failures
      ensures objects == if ok then old(objects) - {k} else old(objects)
      ensures failures == old(failures) + if ok then 0 else 1
    {
      ok := *;
      if ok {
        objects := objects - {k};
      } else {
        failures := failures + 1;
      }
    }

    /** The listing of the whole destination, in some order. */
    method List() returns (items: seq<Item>)
      ensures Stored(items) == objects
      ensures forall i, j :: 0 <= i < j < |items| ==> items[i].key != items[j].key
    {
      items := [];
      var left := objects.Keys;
      while left != {}
        invariant left <= objects.Keys
        invariant Stored(items) == map k | k in objects && k !in left :: objects[k]
        invariant forall i, j :: 0 <= i < j < |items| ==> items[i].key != items[j].key
        decreases left
      {
        var k :| k in left;
        var longer := items + [Item(k, objects[k])];
        assert longer[..|longer| - 1] == items;
        forall i | 0 <= i < |items| ensures items[i].key != k {
          assert items[i].key in Stored(items);
        }
        items, left := longer, left - {k};
      }
    }

    /** The groups of the whole destination. */
    method Survey() returns (groups: map<string, Group>)
      ensures Groups(objects, groups)
    {
      var items := List();
      groups := GroupBackups(items);
    }

    /** deleteKeys: in order, the manifest first, stopping at the first failure. */
    method DeleteKeys(id: string, names: seq<string>) returns (ok: bool)
      modifies `objects, `failures
      ensures OnlyFrom(old(objects), objects, {id})
      ensures failures == old(failures) + if ok then 0 else 1
      ensures ok ==> forall k :: k in objects <==> k in old(objects) && !(k.InBackup? && k.id == id && k.name in names)
      ensures P.ManifestName in names && InBackup(id, P.ManifestName) in objects ==>
                forall n :: !P.ManifestLike(n) && InBackup(id, n) in old(objects) ==> InBackup(id, n) in objects
    {
      var order := P.DeleteOrder(names);
      ghost var before := objects;
      for i := 0 to |order|
        invariant Deleted(before, objects, id, order[..i]) && failures == old(failures)
      {
        var deleted := Delete(InBackup(id, order[i]));
        if !deleted {
          if P.ManifestName in names {
            InterruptedSafely(before, objects, id, names, i);
          }
          return false;
        }
        assert order[..i + 1] == order[..i] + [order[i]];
      }
      assert order[..|order|] == order;
      ok := true;
    }

    /** sort.Reverse of the ids: the largest first. */
    method NewestFirst(ids: set<string>) returns (sorted: seq<string>)
      ensures |sorted| == |ids| && forall id :: id in sorted <==> id in ids
      ensures forall i, j :: 0 <= i < j < |sorted| ==> Less(sorted[j], sorted[i])
    {
      sorted := [];
      var left := ids;
      while left != {}
        invariant left <= ids && |sorted| + |left| == |ids|
        invariant forall id :: id in sorted <==> id in ids - left
        invariant forall i, j :: 0 <= i < j < |sorted| ==> Less(sorted[j], sorted[i])
        invariant forall id, i :: id in left && 0 <= i < |sorted| ==> Less(id, sorted[i])
        decreases left
      {
        var top := Largest(left);
        sorted, left := sorted + [top], left - {top};
      }
    }

    method Largest(ids: set<string>) returns (top: string)
      requires ids != {}
      ensures top in ids && forall id :: id in ids && id != top ==> Less(id, top)
    {
      top :| top in ids;
      var left := ids - {top};
      while left != {}
        invariant left <= ids && top in ids && top !in left
        invariant forall id :: id in ids - left && id != top ==> Less(id, top)
        decreases left
      {
        var id :| id in left;
        LessIsTotal(id, top);
        if Less(top, id) {
          forall other | other in ids - left && other != top ensures Less(other, id) {
            LessIsTransitive(other, top, id);
          }
          top := id;
        }
        left := left - {id};
      }
    }

    /** Deletes one listed backup or upload. */
    method Drop(id: string, g: Group, ghost before: Objects, ghost gone: set<string>, ghost exact: bool) returns (ok: bool)
      requires Describes(before, id, g) && Dropped(before, objects, gone, exact)
      modifies `objects, `failures
      ensures Dropped(before, objects, gone + {id}, exact && ok)
      ensures OnlyFrom(old(objects), objects, {id}) && (ok ==> Gone(objects, id))
      ensures failures == old(failures) + if ok then 0 else 1
    {
      ok := DeleteKeys(id, g.names);
      DropsOne(before, old(objects), objects, gone, id, g.names);
    }

    /**
     The loops of prune over what it drops, going on past what could not be deleted: every delete that
     fails leaves no more than one backup behind, and only such a failure is an error.
     */
    method DropAll(groups: map<string, Group>, ids: seq<string>, ghost before: Objects, ghost gone: set<string>, ghost exact: bool)
      returns (ok: bool)
      requires Groups(before, groups) && Dropped(before, objects, gone, exact)
      requires forall i :: 0 <= i < |ids| ==> ids[i] in groups
      modifies `objects, `failures
      ensures Dropped(before, objects, gone + Elems(ids), exact && ok)
      ensures (ok <==> failures == old(failures)) && failures >= old(failures)
      ensures |StillThere(objects, ids)| <= failures - old(failures)
      ensures forall k :: k in objects ==> k in old(objects)
    {
      hide Dropped, StillThere, Groups, Describes, Gone;
      ok := true;
      assert gone + Elems(ids[..0]) == gone;
      NoneLeftBehind(objects, ids);
      for i := 0 to |ids|
        invariant Dropped(before, objects, gone + Elems(ids[..i]), exact && ok)
        invariant (ok <==> failures == old(failures)) && failures >= old(failures)
        invariant |StillThere(objects, ids[..i])| <= failures - old(failures)
        invariant forall k :: k in objects ==> k in old(objects)
      {
        ghost var was := objects;
        GroupOf(before, groups, ids[i]);
        var dropped := Drop(ids[i], groups[ids[i]], before, gone + Elems(ids[..i]), exact && ok);
        ElemsNext(gone, ids, i);
        OneMoreDealtWith(was, objects, ids, i);
        ok := ok && dropped;
      }
      assert ids[..|ids|] == ids;
    }

    /** The complete backups beyond the `keep` newest. */
    method Surplus(groups: map<string, Group>, keep: int, ghost before: Objects) returns (drop: seq<string>, ghost kept: set<string>)
      requires Groups(before, groups)
      ensures Newest(CompleteIds(before), keep, kept) && Elems(drop) == CompleteIds(before) - kept
      ensures forall i :: 0 <= i < |drop| ==> drop[i] in groups
    {
      GroupsTell(before, groups, 0);
      var sorted := NewestFirst(set id | id in groups && groups[id].complete);
      var cut := if keep > 0 && |sorted| > keep then keep else |sorted|;
      CutIsNewest(CompleteIds(before), keep, sorted, cut);
      drop, kept := sorted[cut..], Elems(sorted[..cut]);
      forall i | 0 <= i < |drop| ensures drop[i] in groups {
        assert drop[i] in sorted;
      }
    }

    /** The abandoned uploads. */
    method Stale(groups: map<string, Group>, cutoff: int, ghost before: Objects) returns (drop: seq<string>)
      requires Groups(before, groups)
      ensures Elems(drop) == AbandonedIds(before, cutoff)
      ensures forall i :: 0 <= i < |drop| ==> drop[i] in groups
    {
      GroupsTell(before, groups, cutoff);
      var stale := set id | id in groups && !groups[id].complete && groups[id].newest < cutoff;
      drop := NewestFirst(stale);
      assert Elems(drop) == stale;
      forall i | 0 <= i < |drop| ensures drop[i] in groups {
        assert drop[i] in drop;
      }
    }

    /**
     prune: without an error, exactly the `keep` largest complete ids stay listed, and besides the
     dropped backups only uploads abandoned before the cutoff lose anything. It is an error if and only if
     a delete fails, and each one leaves no more than one of the backups and uploads in `drop` behind.
     */
    method Prune(keep: int, now: nat) returns (ok: bool, ghost kept: set<string>, ghost drop: seq<string>)
      modifies `objects, `failures
      ensures Elems(drop) == CompleteIds(old(objects)) - kept + AbandonedIds(old(objects), now - 21600)
      ensures (ok <==> failures == old(failures)) && |StillThere(objects, drop)| <= failures - old(failures)
      ensures Newest(CompleteIds(old(objects)), keep, kept)
      ensures |kept| == (if 0 < keep < |CompleteIds(old(objects))| then keep else |CompleteIds(old(objects))|)
      ensures forall k, d :: k in kept && d in CompleteIds(old(objects)) && d !in kept ==> Less(d, k)
      ensures Dropped(old(objects), objects, CompleteIds(old(objects)) - kept + AbandonedIds(old(objects), now - P.IncompleteAfter), ok)
      ensures ok ==> CompleteIds(objects) == kept
    {
      hide Groups, Describes, CompleteIds, AbandonedIds, Newest, StillThere, OnlyFrom, Without, Less;
      ghost var before := objects;
      var groups := Survey();
      var surplus;
      surplus, kept := Surplus(groups, keep, before);
      NothingDropped(before);
      var backups := DropAll(groups, surplus, before, {}, true);
      ghost var between := objects;
      assert {} + Elems(surplus) == CompleteIds(before) - kept;
      var stale := Stale(groups, now - P.IncompleteAfter, before);
      var uploads := DropAll(groups, stale, before, CompleteIds(before) - kept, backups);
      ok := backups && uploads;
      drop := surplus + stale;
      LeftBehindByBoth(between, objects, surplus, stale);
      KeptAreListed(before, keep, kept, now - P.IncompleteAfter);
      NewestAre(CompleteIds(before), keep, kept);
    }
  }

  lemma GroupOf(objects: Objects, groups: map<string, Group>, id: string)
    requires Groups(objects, groups) && id in groups
    ensures Describes(objects, id, groups[id])
  {
  }

  lemma {:induction false} SortedHasNoRepeats(sorted: seq<string>)
    requires forall i, j :: 0 <= i < j < |sorted| ==> Less(sorted[j], sorted[i])
    ensures |Elems(sorted)| == |sorted|
  {
    if sorted != [] {
      var n := |sorted| - 1;
      SortedHasNoRepeats(sorted[..n]);
      forall i | 0 <= i < n ensures sorted[i] != sorted[n] {
        LessIsTotal(sorted[n], sorted[i]);
      }
      assert Elems(sorted) == Elems(sorted[..n]) + {sorted[n]};
    }
  }

  /** Cutting the sorted ids keeps the newest and drops the rest. */
  lemma CutIsNewest(ids: set<string>, keep: int, sorted: seq<string>, cut: nat)
    requires |sorted| == |ids| && forall id :: id in sorted <==> id in ids
    requires forall i, j :: 0 <= i < j < |sorted| ==> Less(sorted[j], sorted[i])
    requires cut == if keep > 0 && |sorted| > keep then keep else |sorted|
    ensures Newest(ids, keep, Elems(sorted[..cut]))
    ensures Elems(sorted[cut..]) == ids - Elems(sorted[..cut])
  {
    SortedHasNoRepeats(sorted[..cut]);
    assert sorted == sorted[..cut] + sorted[cut..];
    forall k, d | k in sorted[..cut] && d in sorted[cut..] ensures Less(d, k) && d != k {
      LessIsTotal(d, k);
    }
  }
}
