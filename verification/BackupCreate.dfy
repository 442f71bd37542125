/**
 Making and deleting one backup, step by step (internal/backup/service.go: create, Delete). What the
 same steps do when calls interleave is in BackupProtocol.
 */
module BackupCreate {
  import opened BackupIds
  import opened BackupRetention
  import opened Collections
  import P = BackupProtocol

  datatype CreateResult = Created | Refused | Failed | Stopped

  datatype DeleteResult = Deleted | InvalidId | NotFound | NotDeleted

  predicate Of(k: Key, id: string) {
    k.InBackup? && k.id == id
  }

  /** Other backups, and what is no backup, are as before. */
  ghost predicate OthersSame(before: Objects, after: Objects, id: string) {
    forall k :: !Of(k, id) ==> (k in before <==> k in after) && (k in before ==> before[k] == after[k])
  }

  /** Backup id has these objects and no other. */
  ghost predicate Has(objects: Objects, id: string, names: set<string>) {
    forall k :: Of(k, id) ==> (k in objects <==> k.name in names)
  }

  /** Those of the names that backup id still has an object of. */
  ghost function StillStored(objects: Objects, id: string, names: set<string>): set<string> {
    set n | n in names && InBackup(id, n) in objects
  }

  lemma OneMoreName(s: seq<string>, i: nat)
    requires i < |s|
    ensures Elems(s[..i + 1]) == Elems(s[..i]) + {s[i]}
  {
    assert s[..i + 1] == s[..i] + [s[i]];
  }

  /**
   create, the dump being given: files first, the manifest last. Success means exactly these files and
   the manifest are there; whatever else happens, a manifest is there only with all of its files, unless
   its own Put reported an error although it was stored. It fails only if a store does, and then leaves
   no more objects behind than stores and deletes have failed.
   */
  method Create(bucket: Bucket, id: string, files: seq<string>, now: nat) returns (r: CreateResult)
    requires Has(bucket.objects, id, {})
    modifies bucket
    ensures OthersSame(old(bucket.objects), bucket.objects, id)
    ensures r.Refused? <==> !P.ValidFiles(files)
    ensures r.Refused? ==> bucket.objects == old(bucket.objects)
    ensures r.Created? ==> Has(bucket.objects, id, Elems(files) + {P.ManifestName})
    ensures r.Failed? ==> bucket.failures > old(bucket.failures)
    ensures r.Stopped? <==> bucket.stops > old(bucket.stops)
    ensures r.Failed? ==>
              |StillStored(bucket.objects, id, Elems(files) + {P.ManifestName})| <= bucket.failures - old(bucket.failures)
    ensures r.Failed? && InBackup(id, P.ManifestName) in bucket.objects ==> bucket.torn(InBackup(id, P.ManifestName))
    ensures InBackup(id, P.ManifestName) in bucket.objects && !bucket.torn(InBackup(id, P.ManifestName)) ==>
              Has(bucket.objects, id, Elems(files) + {P.ManifestName})
  {
    hide StillStored, OthersSame, Has, P.ValidFiles;
    ghost var before, all := bucket.objects, Elems(files) + {P.ManifestName};
    NothingYet(before, id, files);
    if !P.ValidFiles(files) {
      return Refused;
    }
    NoManifest(files);
    var uploaded: seq<string> := [];
    for i := 0 to |files|
      invariant uploaded == files[..i]
      invariant OthersSame(before, bucket.objects, id) && Has(bucket.objects, id, Elems(files[..i]))
      invariant bucket.failures == old(bucket.failures) && bucket.stops == old(bucket.stops)
    {
      OneMoreName(files, i);
      StoredOne(before, bucket.objects, id, Elems(files[..i]), files[i], now);
      var put := bucket.Put(InBackup(id, files[i]), now);
      if put.NotKept? {
        ghost var torn := bucket.objects;
        CleanUp(bucket, id, uploaded);
        OneMayStay(before, torn, bucket.objects, id, uploaded, files[i], all);
        return Failed;
      }
      if put.Crashed? {
        return Stopped;
      }
      uploaded := uploaded + [files[i]];
    }
    assert files[..|files|] == files;
    StoredOne(before, bucket.objects, id, Elems(files), P.ManifestName, now);
    var listed := bucket.Put(InBackup(id, P.ManifestName), now);
    if listed.NotKept? {
      ghost var torn := bucket.objects;
      CleanUp(bucket, id, uploaded);
      OneMayStay(before, torn, bucket.objects, id, uploaded, P.ManifestName, all);
      return Failed;
    }
    r := if listed.Crashed? then Stopped else Created;
  }

  lemma NoManifest(files: seq<string>)
    requires P.ValidFiles(files)
    ensures forall i :: 0 <= i < |files| ==> files[i] != P.ManifestName && P.ManifestName !in files[..i]
    ensures P.ManifestName !in files
  {
  }

  lemma NothingYet(objects: Objects, id: string, files: seq<string>)
    requires Has(objects, id, {})
    ensures OthersSame(objects, objects, id) && Has(objects, id, Elems(files[..0])) && InBackup(id, P.ManifestName) !in objects
  {
  }

  lemma StoredOne(before: Objects, objects: Objects, id: string, names: set<string>, name: string, now: nat)
    requires OthersSame(before, objects, id) && Has(objects, id, names)
    ensures var more := objects[InBackup(id, name) := now];
            OthersSame(before, more, id) && Has(more, id, names + {name})
    ensures InBackup(id, P.ManifestName) in objects <==> P.ManifestName in names
  {
  }

  /** What is left of an upload after its cleanup: what the cleanup left, and perhaps the object whose Put failed. */
  lemma OneMayStay(before: Objects, torn: Objects, after: Objects, id: string, uploaded: seq<string>, name: string, names: set<string>)
    requires Has(torn, id, Elems(uploaded)) || Has(torn, id, Elems(uploaded) + {name})
    requires (forall k :: k in after ==> k in torn) && OthersSame(before, torn, id) && OthersSame(torn, after, id)
    ensures OthersSame(before, after, id)
    ensures |StillStored(after, id, names)| <= |StillStored(after, id, Elems(uploaded))| + 1
  {
    var left := StillStored(after, id, Elems(uploaded)) + {name};
    forall n | n in StillStored(after, id, names) ensures n in left {
      assert Of(InBackup(id, n), id);
    }
    SubsetSize(StillStored(after, id, names), left);
  }

  lemma OneLessStored(before: Objects, after: Objects, id: string, names: seq<string>, i: nat, ok: bool)
    requires i < |names| && after == if ok then before - {InBackup(id, names[i])} else before
    ensures |StillStored(after, id, Elems(names[..i + 1]))| <= |StillStored(before, id, Elems(names[..i]))| + if ok then 0 else 1
  {
    var was := StillStored(before, id, Elems(names[..i]));
    var more := if ok then was else was + {names[i]};
    OneMoreName(names, i);
    SubsetSize(StillStored(after, id, Elems(names[..i + 1])), more);
  }

  lemma NoneStored(objects: Objects, id: string, names: seq<string>)
    ensures StillStored(objects, id, Elems(names[..0])) == {}
  {
  }

  /** cleanup: deletes what was uploaded, each delete that fails leaving one object behind. */
  method CleanUp(bucket: Bucket, id: string, uploaded: seq<string>)
    modifies bucket`objects, bucket`failures
    ensures bucket.failures >= old(bucket.failures)
    ensures |StillStored(bucket.objects, id, Elems(uploaded))| <= bucket.failures - old(bucket.failures)
    ensures OthersSame(old(bucket.objects), bucket.objects, id)
    ensures forall k :: k in bucket.objects ==> k in old(bucket.objects)
  {
    hide StillStored;
    NoneStored(bucket.objects, id, uploaded);
    for i := 0 to |uploaded|
      invariant OthersSame(old(bucket.objects), bucket.objects, id)
      invariant forall k :: k in bucket.objects ==> k in old(bucket.objects)
      invariant bucket.failures >= old(bucket.failures)
      invariant |StillStored(bucket.objects, id, Elems(uploaded[..i]))| <= bucket.failures - old(bucket.failures)
    {
      ghost var before := bucket.objects;
      var ok := bucket.Delete(InBackup(id, uploaded[i]));
      OneLessStored(before, bucket.objects, id, uploaded, i, ok);
    }
    assert uploaded[..|uploaded|] == uploaded;
  }

  /**
   Delete: success means every object of the backup is gone; after a failure, of a delete, a manifest
   that is still there has lost none of its files.
   */
  method Delete(bucket: Bucket, id: string) returns (r: DeleteResult)
    modifies bucket`objects, bucket`failures
    ensures OthersSame(old(bucket.objects), bucket.objects, id)
    ensures r.InvalidId? <==> !ValidId(id)
    ensures r.NotFound? <==> ValidId(id) && !Complete(old(bucket.objects), id)
    ensures r.InvalidId? || r.NotFound? ==> bucket.objects == old(bucket.objects)
    ensures r.Deleted? ==> Has(bucket.objects, id, {})
    ensures bucket.failures == old(bucket.failures) + if r.NotDeleted? then 1 else 0
    ensures InBackup(id, P.ManifestName) in bucket.objects ==>
              forall n :: !P.ManifestLike(n) && InBackup(id, n) in old(bucket.objects) ==> InBackup(id, n) in bucket.objects
  {
    if !ValidId(id) {
      return InvalidId;
    }
    var groups := bucket.Survey();
    if id !in groups || !groups[id].complete {
      return NotFound;
    }
    assert Describes(bucket.objects, id, groups[id]);
    var ok := bucket.DeleteKeys(id, groups[id].names);
    r := if ok then Deleted else NotDeleted;
  }
}
