/**
 The backup store under concurrent writers (internal/backup/service.go: create, deleteKeys, prune,
 Delete). Any number of calls run at once, each may stop anywhere, and time passes between steps.

 Put and Delete are atomic, ids are fresh, and the store's clock is the service's clock. A Put that
 reports an error has stored nothing, unless `torn` says of its key that it may have. `gap` bounds
 the time an upload goes without storing anything, `lag` the time from prune's listing to its cutoff.
 */
module BackupProtocol {

  /** Seconds an upload without a manifest may sit before prune takes it for abandoned. */
  const IncompleteAfter := 6 * 3600

  const ManifestName := "manifest.json"

  /** An object of backup `id`; its storage key is id + "/" + name. */
  datatype Key = Key(id: string, name: string)

  /** A stored object: when it was stored and, for a manifest, the files it lists. */
  datatype Object = Object(modified: int, files: seq<string>)

  type Store = map<Key, Object>

  /** The keys deleteKeys sorts to the front: those ending in "/manifest.json". */
  predicate ManifestLike(name: string): (r: bool)
    ensures r <==> name == "manifest.json" || exists front :: name == front + "/manifest.json"
  {
    assert |name| > |ManifestName| && name[|name| - |ManifestName| - 1..] == "/" + ManifestName ==>
        name == name[..|name| - |ManifestName| - 1] + "/manifest.json";
    || name == ManifestName
    || (|name| > |ManifestName| && name[|name| - |ManifestName| - 1..] == "/" + ManifestName)
  }

  /** deleteKeys' order: a stable sort with the manifest in front. */
  function DeleteOrder(names: seq<string>): (r: seq<string>)
    ensures forall n :: n in r <==> n in names
  {
    Only(names, true) + Only(names, false)
  }

  function Only(names: seq<string>, manifests: bool): (r: seq<string>)
    ensures forall n :: n in r <==> n in names && ManifestLike(n) == manifests
  {
    if names == [] then []
    else (if ManifestLike(names[0]) == manifests then [names[0]] else []) + Only(names[1..], manifests)
  }

  /** One backup in a listing: its object names, whether its manifest is there, and its newest object. */
  datatype Group = Group(names: seq<string>, complete: bool, newest: int)

  datatype Process =
    // create: files[..next] are stored, the last of them at time `last`
    | Creating(id: string, files: seq<string>, next: nat, last: int)
    // the cleanup of a failed create, or deleteKeys of one backup
    | Deleting(id: string, left: seq<string>)
    // prune: the listing, the cutoff once computed, and the backup being deleted
    | Pruning(listedAt: int, groups: map<string, Group>, cutoff: Cutoff, id: string, left: seq<string>)

  datatype Cutoff = NotYet | Before(time: int)

  datatype State = State(now: int, store: Store, used: set<string>, procs: map<nat, Process>)

  /** A listed backup has every file its manifest lists. */
  ghost predicate Whole(store: Store, id: string) {
    Key(id, ManifestName) in store ==>
      forall f :: f in store[Key(id, ManifestName)].files ==> Key(id, f) in store
  }

  ghost predicate AllWhole(s: State) {
    forall id :: Whole(s.store, id)
  }

  /** No one is creating backup id. */
  ghost predicate NotCreated(s: State, id: string) {
    forall p :: p in s.procs && s.procs[p].Creating? ==> s.procs[p].id != id
  }

  /** Backup id has no manifest and, ids being fresh, never will have one again. */
  ghost predicate Dead(s: State, id: string) {
    id in s.used && Key(id, ManifestName) !in s.store && NotCreated(s, id)
  }

  // ---------------------------------------------------------------------
  // Steps
  // ---------------------------------------------------------------------

  /** What validate accepts: at least one file, none of them manifest-like. */
  predicate ValidFiles(files: seq<string>) {
    |files| > 0 && forall i :: 0 <= i < |files| ==> !ManifestLike(files[i])
  }

  ghost predicate StartCreate(s: State, s': State, p: nat, id: string, files: seq<string>) {
    && p !in s.procs && id !in s.used && ValidFiles(files)
    && s' == s.(used := s.used + {id}, procs := s.procs[p := Creating(id, files, 0, s.now)])
  }

  ghost predicate PutFile(s: State, s': State, p: nat) {
    && p in s.procs && s.procs[p].Creating? && s.procs[p].next < |s.procs[p].files|
    && var c := s.procs[p];
       s' == s.(store := s.store[Key(c.id, c.files[c.next]) := Object(s.now, [])],
                procs := s.procs[p := c.(next := c.next + 1, last := s.now)])
  }

  ghost predicate PutManifest(s: State, s': State, p: nat) {
    && p in s.procs && s.procs[p].Creating? && s.procs[p].next == |s.procs[p].files|
    && var c := s.procs[p];
       s' == s.(store := s.store[Key(c.id, ManifestName) := Object(s.now, c.files)], procs := s.procs - {p})
  }

  /** A Put failed: create starts deleting what it uploaded. */
  ghost predicate PutFails(s: State, s': State, p: nat) {
    && p in s.procs && s.procs[p].Creating? && s.procs[p].next <= |s.procs[p].files|
    && var c := s.procs[p];
       s' == s.(procs := s.procs[p := Deleting(c.id, c.files[..c.next])])
  }

  /**
   A Put reported an error and had stored its object all the same. create does not know, and deletes
   what was uploaded before it.
   */
  ghost predicate PutTears(s: State, s': State, p: nat, torn: Key -> bool) {
    && p in s.procs && s.procs[p].Creating? && s.procs[p].next <= |s.procs[p].files|
    && var c := s.procs[p];
       var last := c.next == |c.files|;
       var k := Key(c.id, if last then ManifestName else c.files[c.next]);
       && torn(k)
       && s' == s.(store := s.store[k := Object(s.now, if last then c.files else [])],
                   procs := s.procs[p := Deleting(c.id, c.files[..c.next])])
  }

  /** A listing of one backup, in any order. */
  ghost predicate Lists(store: Store, id: string, g: Group) {
    && g.names != []
    && (forall n :: n in g.names <==> Key(id, n) in store)
    && (g.complete <==> Key(id, ManifestName) in store)
    && (forall n :: n in g.names ==> store[Key(id, n)].modified <= g.newest)
    && (exists n :: n in g.names && store[Key(id, n)].modified == g.newest)
  }

  /** Delete: a complete backup's keys are listed and sorted. */
  ghost predicate StartDelete(s: State, s': State, p: nat, id: string, g: Group) {
    && p !in s.procs && Lists(s.store, id, g) && g.complete
    && s' == s.(procs := s.procs[p := Deleting(id, DeleteOrder(g.names))])
  }

  ghost predicate DeleteNext(s: State, s': State, p: nat) {
    && p in s.procs && !s.procs[p].Creating? && s.procs[p].left != []
    && var d := s.procs[p];
       s' == s.(store := s.store - {Key(d.id, d.left[0])}, procs := s.procs[p := d.(left := d.left[1..])])
  }

  ghost predicate StartPrune(s: State, s': State, p: nat, groups: map<string, Group>) {
    && p !in s.procs
    && (forall id :: id in groups <==> exists n :: Key(id, n) in s.store)
    && (forall id :: id in groups ==> Lists(s.store, id, groups[id]))
    && s' == s.(procs := s.procs[p := Pruning(s.now, groups, NotYet, "", [])])
  }

  /** Retention drops a backup that was complete when listed. */
  ghost predicate PruneComplete(s: State, s': State, p: nat, id: string) {
    && p in s.procs && s.procs[p].Pruning? && s.procs[p].cutoff.NotYet?
    && id in s.procs[p].groups && s.procs[p].groups[id].complete
    && s' == s.(procs := s.procs[p := s.procs[p].(id := id, left := DeleteOrder(s.procs[p].groups[id].names))])
  }

  ghost predicate PruneCutoff(s: State, s': State, p: nat) {
    && p in s.procs && s.procs[p].Pruning? && s.procs[p].cutoff.NotYet?
    && s' == s.(procs := s.procs[p := s.procs[p].(cutoff := Before(s.now - IncompleteAfter), left := [])])
  }

  /** An incomplete upload older than the cutoff is taken for abandoned. */
  ghost predicate PruneStale(s: State, s': State, p: nat, id: string) {
    && p in s.procs && s.procs[p].Pruning? && s.procs[p].cutoff.Before?
    && id in s.procs[p].groups && !s.procs[p].groups[id].complete
    && s.procs[p].groups[id].newest < s.procs[p].cutoff.time
    && s' == s.(procs := s.procs[p := s.procs[p].(id := id, left := DeleteOrder(s.procs[p].groups[id].names))])
  }

  /** Any call may end or be cut off at any point. */
  ghost predicate Stop(s: State, s': State, p: nat) {
    p in s.procs && s' == s.(procs := s.procs - {p})
  }

  /** Time passes, but no upload goes without storing anything for more than gap, and no prune takes more than lag to its cutoff. */
  ghost predicate InTime(s: State, gap: int, lag: int) {
    forall p :: p in s.procs ==>
      && (s.procs[p].Creating? && s.procs[p].next > 0 ==> s.now <= s.procs[p].last + gap)
      && (s.procs[p].Pruning? && s.procs[p].cutoff.NotYet? ==> s.now <= s.procs[p].listedAt + lag)
  }

  ghost predicate Tick(s: State, s': State, gap: int, lag: int) {
    s'.now >= s.now && s' == s.(now := s'.now) && InTime(s', gap, lag)
  }

  ghost predicate Next(s: State, s': State, gap: int, lag: int, torn: Key -> bool) {
    || Tick(s, s', gap, lag)
    || (exists p, id, files :: StartCreate(s, s', p, id, files))
    || (exists p :: PutFile(s, s', p))
    || (exists p :: PutManifest(s, s', p))
    || (exists p :: PutFails(s, s', p))
    || (exists p :: PutTears(s, s', p, torn))
    || (exists p, id, g :: StartDelete(s, s', p, id, g))
    || (exists p :: DeleteNext(s, s', p))
    || (exists p, groups :: StartPrune(s, s', p, groups))
    || (exists p, id :: PruneComplete(s, s', p, id))
    || (exists p :: PruneCutoff(s, s', p))
    || (exists p, id :: PruneStale(s, s', p, id))
    || (exists p :: Stop(s, s', p))
  }

  /** No call is running; listed backups are whole, and there may be leftovers of uploads and deletes. */
  ghost predicate Init(s: State) {
    && s.procs == map[] && AllWhole(s)
    && (forall k :: k in s.store ==> k.id in s.used)
    && (forall k :: k in s.store && k.name == ManifestName ==> ValidFiles(s.store[k].files))
  }

  // ---------------------------------------------------------------------
  // The invariant
  // ---------------------------------------------------------------------

  /** Deleting these names of id in order cannot break it: it is dead, or its manifest goes before any file. */
  ghost predicate SafeToDelete(s: State, id: string, left: seq<string>) {
    left != [] ==>
      || Dead(s, id)
      || (NotCreated(s, id) && id in s.used
          && exists k :: 0 <= k < |left| && left[k] == ManifestName && forall j :: 0 <= j < k ==> ManifestLike(left[j]))
  }

  /** What prune may rely on about a backup it listed: it is finished, dead, or was listed as recently stored to. */
  ghost predicate ListedSafely(s: State, id: string, g: Group, listedAt: int, gap: int) {
    && (g.complete ==> ManifestName in g.names && id in s.used && NotCreated(s, id))
    && (!g.complete ==> Dead(s, id) || g.newest >= listedAt - gap)
  }

  ghost predicate ProcessOk(s: State, p: nat, gap: int)
    requires p in s.procs
  {
    match s.procs[p]
    case Creating(id, files, next, last) =>
      && ValidFiles(files) && next <= |files| && id in s.used
      && Key(id, ManifestName) !in s.store
      && (forall j :: 0 <= j < next ==> Key(id, files[j]) in s.store)
      && (forall n :: Key(id, n) in s.store ==> exists j :: 0 <= j < next && files[j] == n)
      && (next > 0 ==> s.store[Key(id, files[next - 1])].modified >= last)
      && (forall q :: q in s.procs && q != p && s.procs[q].Creating? ==> s.procs[q].id != id)
    case Deleting(id, left) => SafeToDelete(s, id, left)
    case Pruning(listedAt, groups, cutoff, id, left) =>
      && SafeToDelete(s, id, left)
      && (forall i :: i in groups ==> ListedSafely(s, i, groups[i], listedAt, gap))
      && (cutoff.Before? ==> cutoff.time <= listedAt - gap)
  }

  ghost predicate Invariant(s: State, gap: int, lag: int) {
    && AllWhole(s)
    && InTime(s, gap, lag)
    && (forall k :: k in s.store ==> k.id in s.used)
    && (forall k :: k in s.store && k.name == ManifestName ==> NotCreated(s, k.id) && ValidFiles(s.store[k].files))
    && (forall p :: p in s.procs ==> ProcessOk(s, p, gap))
  }

  lemma InitIsSafe(s: State, gap: int, lag: int)
    requires Init(s)
    ensures Invariant(s, gap, lag)
  {
  }

  /** The manifest comes before every file a manifest may list. */
  lemma ManifestGoesFirst(names: seq<string>)
    requires ManifestName in names
    ensures var left := DeleteOrder(names);
            exists k :: 0 <= k < |left| && left[k] == ManifestName && forall j :: 0 <= j < k ==> ManifestLike(left[j])
  {
    var front := Only(names, true);
    assert ManifestName in front;
    var k :| 0 <= k < |front| && front[k] == ManifestName;
    var left := DeleteOrder(names);
    assert left[k] == ManifestName;
    forall j | 0 <= j < k ensures ManifestLike(left[j]) {
      assert left[j] == front[j] && front[j] in front;
    }
  }

  /** The other processes stay right as long as nothing they rely on goes away. */
  lemma OthersStay(s: State, s': State, p: nat, gap: int)
    requires forall q :: q in s.procs ==> ProcessOk(s, q, gap)
    requires forall q :: q != p ==> (q in s.procs <==> q in s'.procs) && (q in s.procs ==> s.procs[q] == s'.procs[q])
    requires s.used <= s'.used
    requires forall id :: id in s.used && NotCreated(s, id) ==> NotCreated(s', id)
    requires forall id :: Dead(s, id) ==> Key(id, ManifestName) !in s'.store
    requires forall q :: q in s.procs && q != p && s.procs[q].Creating? ==>
               forall k: Key :: k.id == s.procs[q].id ==>
                 (k in s.store <==> k in s'.store) && (k in s.store ==> s.store[k] == s'.store[k])
    requires p in s'.procs && s'.procs[p].Creating? ==>
               forall q :: q in s.procs && q != p && s.procs[q].Creating? ==> s.procs[q].id != s'.procs[p].id
    ensures forall q :: q in s'.procs && q != p ==> ProcessOk(s', q, gap)
  {
    forall q | q in s'.procs && q != p ensures ProcessOk(s', q, gap) {
      assert ProcessOk(s, q, gap);
    }
  }

  /** A step that only changes process p, and starts no upload, keeps everything but p itself. */
  lemma QuietStep(s: State, s': State, p: nat, gap: int, lag: int)
    requires Invariant(s, gap, lag)
    requires s'.store == s.store && s'.used == s.used && s'.now == s.now
    requires forall q :: q != p ==> (q in s.procs <==> q in s'.procs) && (q in s.procs ==> s.procs[q] == s'.procs[q])
    requires p in s'.procs ==> !s'.procs[p].Creating? && ProcessOk(s', p, gap)
    requires p in s'.procs && s'.procs[p].Pruning? && s'.procs[p].cutoff.NotYet? ==> s.now <= s'.procs[p].listedAt + lag
    ensures Invariant(s', gap, lag)
  {
    OthersStay(s, s', p, gap);
  }

  lemma TickKeeps(s: State, s': State, gap: int, lag: int)
    requires Invariant(s, gap, lag) && Tick(s, s', gap, lag)
    ensures Invariant(s', gap, lag)
  {
    forall p | p in s'.procs ensures ProcessOk(s', p, gap) {
      assert ProcessOk(s, p, gap);
    }
  }

  lemma StartCreateKeeps(s: State, s': State, p: nat, id: string, files: seq<string>, gap: int, lag: int)
    requires Invariant(s, gap, lag) && StartCreate(s, s', p, id, files)
    ensures Invariant(s', gap, lag)
  {
    forall q | q in s.procs && s.procs[q].Creating? ensures s.procs[q].id != id {
      assert ProcessOk(s, q, gap);
    }
    OthersStay(s, s', p, gap);
    assert ProcessOk(s', p, gap);
  }

  lemma PutFileKeeps(s: State, s': State, p: nat, gap: int, lag: int)
    requires Invariant(s, gap, lag) && PutFile(s, s', p)
    requires gap >= 0
    ensures Invariant(s', gap, lag)
  {
    assert ProcessOk(s, p, gap);
    var c := s.procs[p];
    assert c.files[c.next] != ManifestName;
    forall q | q in s.procs && q != p && s.procs[q].Creating? ensures s.procs[q].id != c.id {
      assert ProcessOk(s, q, gap);
    }
    OthersStay(s, s', p, gap);
    UploaderStays(s, s', p, gap);
    forall i ensures Whole(s'.store, i) {
      assert Whole(s.store, i);
    }
    forall id | NotCreated(s, id) ensures NotCreated(s', id) {
    }
  }

  lemma UploaderStays(s: State, s': State, p: nat, gap: int)
    requires p in s.procs && ProcessOk(s, p, gap) && PutFile(s, s', p)
    ensures ProcessOk(s', p, gap)
  {
    var c := s.procs[p];
    forall n | Key(c.id, n) in s'.store ensures exists j :: 0 <= j < c.next + 1 && c.files[j] == n {
      if n == c.files[c.next] {
      } else {
        assert Key(c.id, n) in s.store;
        var j :| 0 <= j < c.next && c.files[j] == n;
      }
    }
  }

  lemma PutManifestKeeps(s: State, s': State, p: nat, gap: int, lag: int)
    requires Invariant(s, gap, lag) && PutManifest(s, s', p)
    ensures Invariant(s', gap, lag)
  {
    assert ProcessOk(s, p, gap);
    var c := s.procs[p];
    forall q | q in s.procs && q != p && s.procs[q].Creating? ensures s.procs[q].id != c.id {
      assert ProcessOk(s, q, gap);
    }
    OthersStay(s, s', p, gap);
    forall i ensures Whole(s'.store, i) {
      assert Whole(s.store, i);
      if i == c.id {
        forall f | f in c.files ensures Key(i, f) in s'.store {
          var j :| 0 <= j < |c.files| && c.files[j] == f;
        }
      }
    }
  }

  /** Deleting the next key leaves what is still to be deleted safe to delete. */
  lemma NextIsSafe(s: State, s': State, p: nat, gap: int, lag: int)
    requires Invariant(s, gap, lag) && DeleteNext(s, s', p)
    requires SafeToDelete(s, s.procs[p].id, s.procs[p].left) && NotCreated(s, s.procs[p].id)
    ensures SafeToDelete(s', s.procs[p].id, s.procs[p].left[1..])
    ensures !Dead(s, s.procs[p].id) ==> ManifestLike(s.procs[p].left[0])
  {
    var d := s.procs[p];
    if !Dead(s, d.id) {
      var k :| 0 <= k < |d.left| && d.left[k] == ManifestName && forall j :: 0 <= j < k ==> ManifestLike(d.left[j]);
      if k > 0 {
        assert d.left[1..][k - 1] == ManifestName;
      } else {
        assert Dead(s', d.id);
      }
    } else {
      assert Dead(s', d.id);
    }
  }

  lemma DeleteNextKeeps(s: State, s': State, p: nat, gap: int, lag: int)
    requires Invariant(s, gap, lag) && DeleteNext(s, s', p)
    ensures Invariant(s', gap, lag)
  {
    assert ProcessOk(s, p, gap);
    var d := s.procs[p];
    assert SafeToDelete(s, d.id, d.left) && NotCreated(s, d.id);
    NextIsSafe(s, s', p, gap, lag);
    OthersStay(s, s', p, gap);
    assert ProcessOk(s', p, gap);
    forall i ensures Whole(s'.store, i) {
      assert Whole(s.store, i);
    }
  }

  lemma StartDeleteKeeps(s: State, s': State, p: nat, id: string, g: Group, gap: int, lag: int)
    requires Invariant(s, gap, lag) && StartDelete(s, s', p, id, g)
    ensures Invariant(s', gap, lag)
  {
    ManifestGoesFirst(g.names);
    assert Key(id, ManifestName) in s.store;
    assert SafeToDelete(s', id, DeleteOrder(g.names));
    QuietStep(s, s', p, gap, lag);
  }

  /** At the moment of the listing, an incomplete backup is either dead or was stored to within gap. */
  lemma ListingIsSafe(s: State, id: string, g: Group, gap: int, lag: int)
    requires Invariant(s, gap, lag) && Lists(s.store, id, g)
    ensures ListedSafely(s, id, g, s.now, gap)
  {
    var n := g.names[0];
    assert n in g.names && Key(id, n) in s.store;
    if g.complete {
      assert Key(id, ManifestName) in s.store;
    } else if !Dead(s, id) {
      var q :| q in s.procs && s.procs[q].Creating? && s.procs[q].id == id;
      assert ProcessOk(s, q, gap);
      var c := s.procs[q];
      assert c.next > 0 && Key(id, c.files[c.next - 1]) in s.store;
      assert c.files[c.next - 1] in g.names;
    }
  }

  lemma StartPruneKeeps(s: State, s': State, p: nat, groups: map<string, Group>, gap: int, lag: int)
    requires Invariant(s, gap, lag) && StartPrune(s, s', p, groups) && lag >= 0
    ensures Invariant(s', gap, lag)
  {
    forall id | id in groups ensures ListedSafely(s', id, groups[id], s.now, gap) {
      ListingIsSafe(s, id, groups[id], gap, lag);
      assert ListedSafely(s, id, groups[id], s.now, gap);
    }
    assert ProcessOk(s', p, gap);
    QuietStep(s, s', p, gap, lag);
  }

  /** prune's own steps: what it deletes next is safe to delete. */
  lemma PruneKeeps(s: State, s': State, p: nat, id: string, gap: int, lag: int)
    requires Invariant(s, gap, lag) && gap + lag <= IncompleteAfter
    requires PruneComplete(s, s', p, id) || PruneCutoff(s, s', p) || PruneStale(s, s', p, id)
    ensures Invariant(s', gap, lag)
  {
    assert ProcessOk(s, p, gap);
    var d := s.procs[p];
    if !PruneCutoff(s, s', p) {
      assert ListedSafely(s, id, d.groups[id], d.listedAt, gap);
      if d.groups[id].complete {
        ManifestGoesFirst(d.groups[id].names);
      }
      assert SafeToDelete(s', id, s'.procs[p].left);
    }
    forall i | i in d.groups ensures ListedSafely(s', i, d.groups[i], d.listedAt, gap) {
      assert ListedSafely(s, i, d.groups[i], d.listedAt, gap);
    }
    assert ProcessOk(s', p, gap);
    QuietStep(s, s', p, gap, lag);
  }

  lemma PutFailsKeeps(s: State, s': State, p: nat, gap: int, lag: int)
    requires Invariant(s, gap, lag) && PutFails(s, s', p)
    ensures Invariant(s', gap, lag)
  {
    assert ProcessOk(s, p, gap);
    assert Dead(s', s.procs[p].id);
    QuietStep(s, s', p, gap, lag);
  }

  /** No Put of a manifest reports an error and stores it. */
  ghost predicate ManifestsDoNotTear(torn: Key -> bool) {
    forall id :: !torn(Key(id, ManifestName))
  }

  lemma PutTearsKeeps(s: State, s': State, p: nat, gap: int, lag: int, torn: Key -> bool)
    requires Invariant(s, gap, lag) && PutTears(s, s', p, torn) && ManifestsDoNotTear(torn) && gap >= 0
    ensures Invariant(s', gap, lag)
  {
    assert ProcessOk(s, p, gap);
    var c := s.procs[p];
    // As if the file had been stored, and the upload then cut off.
    var m := s.(store := s'.store, procs := s.procs[p := c.(next := c.next + 1, last := s.now)]);
    assert PutFile(s, m, p);
    PutFileKeeps(s, m, p, gap, lag);
    TornIsDead(s', c.id, m, p, gap, lag);
    QuietStep(m, s', p, gap, lag);
  }

  lemma TornIsDead(s': State, id: string, m: State, p: nat, gap: int, lag: int)
    requires Invariant(m, gap, lag) && p in m.procs && m.procs[p].Creating? && m.procs[p].id == id
    requires s'.store == m.store && s'.used == m.used
    requires p in s'.procs && !s'.procs[p].Creating? && forall q :: q != p && q in s'.procs ==> q in m.procs && s'.procs[q] == m.procs[q]
    ensures Dead(s', id)
  {
    assert ProcessOk(m, p, gap);
  }

  /** Every step of every process keeps the invariant. */
  lemma StepKeeps(s: State, s': State, gap: int, lag: int, torn: Key -> bool)
    requires Invariant(s, gap, lag) && Next(s, s', gap, lag, torn)
    requires 0 <= gap && 0 <= lag && gap + lag <= IncompleteAfter && ManifestsDoNotTear(torn)
    ensures Invariant(s', gap, lag)
  {
    if Tick(s, s', gap, lag) {
      TickKeeps(s, s', gap, lag);
    } else if p, id, files :| StartCreate(s, s', p, id, files) {
      StartCreateKeeps(s, s', p, id, files, gap, lag);
    } else if p :| PutFile(s, s', p) {
      PutFileKeeps(s, s', p, gap, lag);
    } else if p :| PutManifest(s, s', p) {
      PutManifestKeeps(s, s', p, gap, lag);
    } else if p :| PutFails(s, s', p) {
      PutFailsKeeps(s, s', p, gap, lag);
    } else if p :| PutTears(s, s', p, torn) {
      PutTearsKeeps(s, s', p, gap, lag, torn);
    } else if p, id, g :| StartDelete(s, s', p, id, g) {
      StartDeleteKeeps(s, s', p, id, g, gap, lag);
    } else if p :| DeleteNext(s, s', p) {
      DeleteNextKeeps(s, s', p, gap, lag);
    } else if p, groups :| StartPrune(s, s', p, groups) {
      StartPruneKeeps(s, s', p, groups, gap, lag);
    } else if p, id :| PruneComplete(s, s', p, id) {
      PruneKeeps(s, s', p, id, gap, lag);
    } else if p :| PruneCutoff(s, s', p) {
      PruneKeeps(s, s', p, "", gap, lag);
    } else if p, id :| PruneStale(s, s', p, id) {
      PruneKeeps(s, s', p, id, gap, lag);
    } else {
      var p :| Stop(s, s', p);
      QuietStep(s, s', p, gap, lag);
    }
  }

  // ---------------------------------------------------------------------
  // Runs
  // ---------------------------------------------------------------------

  ghost predicate IsRun(run: seq<State>, gap: int, lag: int, torn: Key -> bool) {
    && |run| > 0 && Init(run[0])
    && forall i :: 0 <= i < |run| - 1 ==> Next(run[i], run[i + 1], gap, lag, torn)
  }

  lemma {:induction false} RunKeeps(run: seq<State>, gap: int, lag: int, torn: Key -> bool)
    requires IsRun(run, gap, lag, torn)
    requires 0 <= gap && 0 <= lag && gap + lag <= IncompleteAfter && ManifestsDoNotTear(torn)
    ensures Invariant(run[|run| - 1], gap, lag)
  {
    var n := |run| - 1;
    if n == 0 {
      InitIsSafe(run[0], gap, lag);
    } else {
      RunKeeps(run[..n], gap, lag, torn);
      StepKeeps(run[n - 1], run[n], gap, lag, torn);
    }
  }

  lemma Extend(run: seq<State>, s': State, gap: int, lag: int, torn: Key -> bool) returns (longer: seq<State>)
    requires IsRun(run, gap, lag, torn) && Next(run[|run| - 1], s', gap, lag, torn)
    ensures IsRun(longer, gap, lag, torn) && longer == run + [s']
  {
    longer := run + [s'];
    forall i | 0 <= i < |longer| - 1 ensures Next(longer[i], longer[i + 1], gap, lag, torn) {
      if i < |run| - 1 {
        assert longer[i] == run[i] && longer[i + 1] == run[i + 1];
      }
    }
  }

  /** One step of process p; prune's is on backup id. */
  lemma Goes(run: seq<State>, s': State, p: nat, id: string, gap: int, lag: int, torn: Key -> bool) returns (longer: seq<State>)
    requires IsRun(run, gap, lag, torn)
    requires
      var s := run[|run| - 1];
      || PutFile(s, s', p) || PutManifest(s, s', p) || PutTears(s, s', p, torn) || DeleteNext(s, s', p)
      || PruneCutoff(s, s', p) || PruneStale(s, s', p, id)
    ensures IsRun(longer, gap, lag, torn) && longer == run + [s']
  {
    hide PutFile, PutManifest, PutTears, DeleteNext, PruneCutoff, PruneStale;
    longer := Extend(run, s', gap, lag, torn);
  }

  /** Time passes. */
  lemma Waits(run: seq<State>, s': State, gap: int, lag: int, torn: Key -> bool) returns (longer: seq<State>)
    requires IsRun(run, gap, lag, torn) && Tick(run[|run| - 1], s', gap, lag)
    ensures IsRun(longer, gap, lag, torn) && longer == run + [s']
  {
    hide Tick;
    longer := Extend(run, s', gap, lag, torn);
  }

  const Files := ["a", "b"]

  /** An upload of two files that has stored the first, `gap` ago, when prune lists the store. */
  lemma SlowUpload(gap: int, lag: int, torn: Key -> bool) returns (run: seq<State>, s: State)
    requires 0 <= gap && 0 <= lag
    ensures IsRun(run, gap, lag, torn) && run[|run| - 1] == s
    ensures s == State(gap, map[Key("x", "a") := Object(0, [])], {"x"},
                       map[0 := Creating("x", Files, 1, 0),
                           1 := Pruning(gap, map["x" := Group(["a"], false, 0)], NotYet, "", [])])
  {
    var s2;
    run, s2 := FirstFileStored(gap, lag, torn);
    var s3 := s2.(now := gap);
    assert Tick(s2, s3, gap, lag);
    run := Waits(run, s3, gap, lag, torn);
    var groups := map["x" := Group(["a"], false, 0)];
    s := s3.(procs := s3.procs[1 := Pruning(gap, groups, NotYet, "", [])]);
    assert StartPrune(s3, s, 1, groups) by {
      assert Key("x", "a") in s3.store;
      assert Lists(s3.store, "x", groups["x"]);
    }
    run := Extend(run, s, gap, lag, torn);
  }

  lemma FirstFileStored(gap: int, lag: int, torn: Key -> bool) returns (run: seq<State>, s: State)
    requires 0 <= gap && 0 <= lag
    ensures IsRun(run, gap, lag, torn) && run[|run| - 1] == s
    ensures s == State(0, map[Key("x", "a") := Object(0, [])], {"x"}, map[0 := Creating("x", Files, 1, 0)])
  {
    var s0 := State(0, map[], {}, map[]);
    var s1 := s0.(used := {"x"}, procs := map[0 := Creating("x", Files, 0, 0)]);
    assert StartCreate(s0, s1, 0, "x", Files);
    s := s1.(store := map[Key("x", "a") := Object(0, [])], procs := map[0 := Creating("x", Files, 1, 0)]);
    assert PutFile(s1, s, 0);
    run := [s0];
    run := Extend(run, s1, gap, lag, torn);
    run := Extend(run, s, gap, lag, torn);
  }

  /** The upload then completes, before prune has computed its cutoff. */
  lemma SlowUploadCompletes(gap: int, lag: int, torn: Key -> bool) returns (run: seq<State>, s: State)
    requires 0 <= gap && 0 <= lag
    ensures IsRun(run, gap, lag, torn) && run[|run| - 1] == s
    ensures s == State(gap + lag,
                       map[Key("x", "a") := Object(0, []), Key("x", "b") := Object(gap, []),
                           Key("x", ManifestName) := Object(gap, Files)], {"x"},
                       map[1 := Pruning(gap, map["x" := Group(["a"], false, 0)], NotYet, "", [])])
  {
    hide IsRun;
    var s4;
    run, s4 := SlowUpload(gap, lag, torn);
    var s5 := s4.(store := s4.store[Key("x", "b") := Object(gap, [])],
                  procs := s4.procs[0 := Creating("x", Files, 2, gap)]);
    assert PutFile(s4, s5, 0);
    run := Goes(run, s5, 0, "", gap, lag, torn);
    var s6 := s5.(store := s5.store[Key("x", ManifestName) := Object(gap, Files)], procs := s5.procs - {0});
    assert PutManifest(s5, s6, 0);
    run := Goes(run, s6, 0, "", gap, lag, torn);
    s := s6.(now := gap + lag);
    assert Tick(s6, s, gap, lag);
    run := Waits(run, s, gap, lag, torn);
  }

  /** Computing its cutoff `lag` after the listing, prune deletes the first file under the manifest. */
  lemma TakenForAbandoned(gap: int, lag: int, torn: Key -> bool) returns (run: seq<State>)
    requires 0 <= gap && 0 <= lag && gap + lag > IncompleteAfter
    ensures IsRun(run, gap, lag, torn) && !AllWhole(run[|run| - 1])
  {
    hide IsRun;
    var s7;
    run, s7 := SlowUploadCompletes(gap, lag, torn);
    var s8 := s7.(procs := s7.procs[1 := s7.procs[1].(cutoff := Before(gap + lag - IncompleteAfter), left := [])]);
    assert PruneCutoff(s7, s8, 1);
    run := Goes(run, s8, 1, "", gap, lag, torn);
    var s9 := s8.(procs := s8.procs[1 := s8.procs[1].(id := "x", left := DeleteOrder(["a"]))]);
    assert PruneStale(s8, s9, 1, "x");
    run := Goes(run, s9, 1, "x", gap, lag, torn);
    assert DeleteOrder(["a"]) == ["a"];
    var s10 := s9.(store := s9.store - {Key("x", "a")}, procs := s9.procs[1 := s9.procs[1].(left := [])]);
    assert DeleteNext(s9, s10, 1) by {
      assert s9.procs[1].left[1..] == [];
    }
    run := Goes(run, s10, 1, "", gap, lag, torn);
    assert !Whole(s10.store, "x") by {
      assert "a" == Files[0] && "a" in s10.store[Key("x", ManifestName)].files;
    }
  }

  /** An upload of one file whose manifest is stored although its Put reports an error: the cleanup deletes the file. */
  lemma ListedThenCleanedUp(gap: int, lag: int, torn: Key -> bool, id: string) returns (run: seq<State>)
    requires 0 <= gap && torn(Key(id, ManifestName))
    ensures IsRun(run, gap, lag, torn) && !AllWhole(run[|run| - 1])
  {
    var files := ["a"];
    var s0 := State(0, map[], {}, map[]);
    var s1 := s0.(used := {id}, procs := map[0 := Creating(id, files, 0, 0)]);
    assert StartCreate(s0, s1, 0, id, files);
    var s2 := s1.(store := map[Key(id, "a") := Object(0, [])], procs := map[0 := Creating(id, files, 1, 0)]);
    assert PutFile(s1, s2, 0);
    var s3 := s2.(store := s2.store[Key(id, ManifestName) := Object(0, files)], procs := map[0 := Deleting(id, files)]);
    assert files[..1] == files;
    assert PutTears(s2, s3, 0, torn);
    var s4 := s3.(store := s3.store - {Key(id, "a")}, procs := map[0 := Deleting(id, [])]);
    assert files[1..] == [];
    assert DeleteNext(s3, s4, 0);
    run := [s0];
    run := Extend(run, s1, gap, lag, torn);
    run := Goes(run, s2, 0, "", gap, lag, torn);
    run := Goes(run, s3, 0, "", gap, lag, torn);
    run := Goes(run, s4, 0, "", gap, lag, torn);
    assert !Whole(s4.store, id) by {
      assert files[0] in s4.store[Key(id, ManifestName)].files;
    }
  }

  /**
   Listed backups are whole in every state of every run exactly when an upload's longest pause and
   prune's longest delay add up to no more than the six hours prune waits, and no Put of a manifest
   both stores it and reports an error.
   */
  lemma ListedBackupsAreWholeIff(gap: int, lag: int, torn: Key -> bool)
    requires 0 <= gap && 0 <= lag
    ensures (forall run :: IsRun(run, gap, lag, torn) ==> AllWhole(run[|run| - 1]))
            <==> gap + lag <= IncompleteAfter && ManifestsDoNotTear(torn)
  {
    hide Next, AllWhole;
    if !ManifestsDoNotTear(torn) {
      var id :| torn(Key(id, ManifestName));
      var run := ListedThenCleanedUp(gap, lag, torn, id);
    } else if gap + lag <= IncompleteAfter {
      forall run | IsRun(run, gap, lag, torn) ensures AllWhole(run[|run| - 1]) {
        RunKeeps(run, gap, lag, torn);
      }
    } else {
      var run := TakenForAbandoned(gap, lag, torn);
    }
  }
}
