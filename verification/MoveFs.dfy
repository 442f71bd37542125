/**
 Moving one file or folder (internal/library/move_fs.go).

 A drive is a map from paths to trees. Its primitive steps may fail, and the
 machine may stop before, during or after any of them; which of these happens
 is left open, so every contract below speaks about all of them at once.
 */
module MoveFs {

  newtype byte = x: int | 0 <= x < 256

  /** A file or folder: the bytes of every regular file in it, by its path below it. */
  type Tree = map<string, seq<byte>>

  /** Either a named entry of a folder, or the place where a copy for row `row` is assembled. */
  datatype Path =
    | Entry(dir: string, base: string)
    | Partial(dir: string, row: string, idx: nat)

  type Disk = map<Path, Tree>

  /** Where a copy to dst is assembled: next to dst, named after the journal row. */
  function TmpName(dst: Path, row: string, idx: nat): Path {
    Partial(dst.dir, row, idx)
  }

  /** What a primitive step answered; Crash means the machine stopped in it. */
  datatype Step = Ok | Exists | CrossDevice | Fault | Crash

  datatype MoveResult =
    | Done            // moved
    | Left            // moved, but the original could not be fully removed
    | Refused         // something is already at the destination
    | NotMoved        // nothing moved
    | Stopped         // the machine stopped

  /** The name under which a tree that is one regular file holds its bytes; files in a folder begin with "./". */
  const Itself := "."

  /** A regular file, or a folder with no file in it: there is nothing to remove in parts. */
  predicate OnePiece(t: Tree) {
    t.Keys <= {Itself}
  }

  /** What is left of t when its removal stops halfway: a file is whole or gone. */
  ghost predicate SubTree(s: Tree, t: Tree) {
    (forall n :: n in s ==> n in t && s[n] == t[n]) && (OnePiece(t) ==> s == t)
  }

  /** What copying t can have written so far: some of its files, each up to some byte. */
  ghost predicate CopyOf(c: Tree, t: Tree) {
    forall n :: n in c ==> n in t && c[n] <= t[n]
  }

  /** The disks agree on path p. */
  ghost predicate SameAt(d0: Disk, d1: Disk, p: Path) {
    (p in d0 <==> p in d1) && (p in d0 ==> d0[p] == d1[p])
  }

  ghost predicate SameExcept(d0: Disk, d1: Disk, ps: set<Path>) {
    forall p :: p !in ps ==> (p in d0 <==> p in d1) && (p in d0 ==> d0[p] == d1[p])
  }

  /** Neither end of a move changed. */
  ghost predicate Untouched(d0: Disk, d1: Disk, src: Path, dst: Path) {
    SameAt(d0, d1, src) && SameAt(d0, d1, dst)
  }

  /** The whole content is at a destination that was free; a source that is a folder may be partly deleted. */
  ghost predicate Committed(d0: Disk, d1: Disk, src: Path, dst: Path) {
    && src in d0 && dst !in d0
    && dst in d1 && d1[dst] == d0[src]
    && (src in d1 ==> SubTree(d1[src], d0[src]))
  }

  /** What verifyCopy checks: every file of t is in c with the same size. */
  predicate Verified(t: Tree, c: Tree) {
    forall n | n in t :: n in c && |c[n]| == |t[n]|
  }

  /** Comparing sizes is enough: a partial copy passes exactly when it is the whole tree. */
  lemma VerifiedIsWhole(t: Tree, c: Tree)
    requires CopyOf(c, t)
    ensures Verified(t, c) <==> c == t
  {
    if Verified(t, c) {
      forall n | n in t ensures n in c && c[n] == t[n] {
        assert c[n] <= t[n] && |c[n]| == |t[n]|;
      }
      assert c.Keys == t.Keys;
    }
  }

  class Drive {
    var disk: Disk
    /** Renames never cross devices when set. */
    const oneDevice: bool
    /** How many primitive steps have failed so far. */
    ghost var faults: nat
    /** How often the machine has stopped. */
    ghost var stops: nat

    constructor (disk: Disk, oneDevice: bool)
      ensures this.disk == disk && this.oneDevice == oneDevice && faults == stops == 0
    {
      this.disk, this.oneDevice, faults, stops := disk, oneDevice, 0, 0;
    }

    /** os.Lstat: Exists, Ok when there is nothing, Fault when it cannot tell. */
    method Lstat(p: Path) returns (r: Step)
      modifies this`faults
      ensures r.Exists? ==> p in disk
      ensures r.Ok? ==> p !in disk
      ensures r.Exists? || r.Ok? || r.Fault?
      ensures faults == old(faults) + if r.Fault? then 1 else 0
    {
      if * {
        faults := faults + 1;
        return Fault;
      }
      r := if p in disk then Exists else Ok;
    }

    /** renameNoReplace: atomic, and never replaces an existing destination. */
    method Rename(src: Path, dst: Path) returns (r: Step)
      requires src != dst
      modifies this
      ensures stops == old(stops) + if r.Crash? then 1 else 0
      ensures r.Ok? ==> src in old(disk) && dst !in old(disk) && disk == (old(disk) - {src})[dst := old(disk)[src]]
      ensures r.Crash? ==>
                || disk == old(disk)
                || (src in old(disk) && dst !in old(disk) && disk == (old(disk) - {src})[dst := old(disk)[src]])
      ensures !r.Ok? && !r.Crash? ==> disk == old(disk)
      ensures r.Exists? ==> dst in old(disk)
      ensures r.CrossDevice? ==> !oneDevice && src in old(disk)
      ensures r.Fault? ==> faults > old(faults) || src !in old(disk)
      ensures faults >= old(faults)
    {
      if * {
        faults := faults + 1;
        return Fault;
      }
      var stopBefore, stopAfter, crosses: bool := *, *, *;
      if stopBefore {
        stops := stops + 1;
        return Crash;
      }
      if src !in disk {
        return Fault;
      }
      if crosses && !oneDevice {
        return CrossDevice;
      }
      if dst in disk {
        return Exists;
      }
      disk := (disk - {src})[dst := disk[src]];
      if stopAfter {
        stops := stops + 1;
      }
      r := if stopAfter then Crash else Ok;
    }

    /** MkdirOwned: makes the folder dir. Empty folders hold no content and are not tracked. */
    method Mkdir(dir: string) returns (r: Step)
      modifies this`faults, this`stops
      ensures stops == old(stops) + if r.Crash? then 1 else 0
      ensures r.Ok? || r.Fault? || r.Crash?
      ensures r.Fault? ==> faults > old(faults)
      ensures faults >= old(faults)
    {
      if * {
        faults := faults + 1;
        return Fault;
      }
      var stop: bool := *;
      if stop {
        stops := stops + 1;
      }
      r := if stop then Crash else Ok;
    }

    /** os.RemoveAll: may fail or stop halfway through a folder; a file goes in one unlink. */
    method RemoveAll(p: Path) returns (r: Step)
      modifies this
      ensures stops == old(stops) + if r.Crash? then 1 else 0
      ensures SameExcept(old(disk), disk, {p})
      ensures p in disk ==> p in old(disk) && SubTree(disk[p], old(disk)[p])
      ensures r.Ok? ==> p !in disk
      ensures r.Ok? || r.Fault? || r.Crash?
      ensures r.Fault? ==> faults > old(faults)
      ensures faults >= old(faults)
    {
      var halfway: bool := *;
      if p in disk && halfway {
        if !OnePiece(disk[p]) {
          var kept: set<string> := *;
          disk := disk[p := map n | n in disk[p] && n in kept :: disk[p][n]];
        }
        if * {
          stops := stops + 1;
          return Crash;
        }
        faults := faults + 1;
        return Fault;
      }
      disk := disk - {p};
      var stop: bool := *;
      if stop {
        stops := stops + 1;
      }
      r := if stop then Crash else Ok;
    }

    /** copyFile for one file of a tree: whatever it answers, what it wrote is a prefix of the file. */
    method CopyFile(src: Path, dst: Path, name: string) returns (r: Step)
      requires src != dst && src in disk && dst in disk && name in disk[src] && name !in disk[dst]
      requires CopyOf(disk[dst], disk[src])
      modifies this
      ensures stops == old(stops) + if r.Crash? then 1 else 0
      ensures SameExcept(old(disk), disk, {dst}) && dst in disk && src in disk
      ensures CopyOf(disk[dst], disk[src]) && name in disk[src]
      ensures disk[dst].Keys <= old(disk)[dst].Keys + {name}
      ensures r.Ok? && faults == old(faults) ==> disk[dst] == old(disk)[dst][name := disk[src][name]]
      ensures r.Ok? || r.Fault? || r.Crash?
      ensures r.Fault? ==> faults > old(faults)
      ensures faults >= old(faults)
    {
      var whole := disk[src][name];
      if * {
        stops := stops + 1;
        return Crash;
      }
      var n: int := *;
      if 0 <= n < |whole| {
        disk := disk[dst := disk[dst][name := whole[..n]]];
        if * {
          stops := stops + 1;
          return Crash;
        }
        // A short copy: reported as an error, or not noticed by the writer.
        faults := faults + 1;
        var noticed: bool := *;
        return if noticed then Fault else Ok;
      }
      disk := disk[dst := disk[dst][name := whole]];
      r := Ok;
    }

    /** copyTree: copies every file of src into a fresh tree at dst. */
    method CopyTree(src: Path, dst: Path) returns (r: Step)
      requires src != dst && src in disk
      modifies this
      ensures stops == old(stops) + if r.Crash? then 1 else 0
      ensures SameExcept(old(disk), disk, {dst}) && src in disk
      ensures r.Ok? ==> dst in disk && CopyOf(disk[dst], disk[src])
      ensures r.Ok? && faults == old(faults) ==> disk[dst] == disk[src]
      ensures r.Ok? || r.Fault? || r.Crash?
      ensures r.Fault? ==> faults > old(faults)
      ensures faults >= old(faults)
    {
      if * {
        faults := faults + 1;
        return Fault;
      }
      var names := disk[src].Keys;
      disk := disk[dst := map[]];
      while names != {}
        invariant SameExcept(old(disk), disk, {dst}) && src in disk && dst in disk
        invariant SameAt(old(disk), disk, src)
        invariant CopyOf(disk[dst], disk[src])
        invariant names <= disk[src].Keys && names !! disk[dst].Keys
        invariant faults >= old(faults) && stops == old(stops)
        invariant faults == old(faults) ==>
                    forall n :: n in disk[src] && n !in names ==> n in disk[dst] && disk[dst][n] == disk[src][n]
        decreases names
      {
        var name :| name in names;
        r := CopyFile(src, dst, name);
        if !r.Ok? {
          return;
        }
        names := names - {name};
      }
      r := Ok;
      if faults == old(faults) {
        assert disk[dst].Keys == disk[src].Keys;
      }
    }

    /** verifyCopy: walks src and compares sizes; the walk itself may fail. */
    method VerifyCopy(src: Path, dst: Path) returns (ok: bool)
      requires src in disk && dst in disk
      modifies this`faults
      ensures ok ==> Verified(disk[src], disk[dst])
      ensures !ok ==> !Verified(disk[src], disk[dst]) || faults > old(faults)
      ensures faults >= old(faults)
    {
      var names := disk[src].Keys;
      while names != {}
        invariant names <= disk[src].Keys && faults == old(faults)
        invariant forall n :: n in disk[src] && n !in names ==> n in disk[dst] && |disk[dst][n]| == |disk[src][n]|
        decreases names
      {
        if * {
          faults := faults + 1;
          return false;
        }
        var name :| name in names;
        if name !in disk[dst] || |disk[dst][name]| != |disk[src][name]| {
          return false;
        }
        names := names - {name};
      }
      ok := true;
    }

    /** Clears the place for the copy, copies and verifies: a copy that passes is whole. */
    method Assemble(src: Path, tmp: Path) returns (r: Step)
      requires src != tmp && src in disk
      modifies this
      ensures stops == old(stops) + if r.Crash? then 1 else 0
      ensures SameExcept(old(disk), disk, {tmp}) && src in disk
      ensures r.Ok? ==> tmp in disk && disk[tmp] == disk[src]
      ensures r.Ok? || r.Fault? || r.Crash?
      ensures r.Fault? ==> faults > old(faults)
      ensures faults >= old(faults)
    {
      r := RemoveAll(tmp);
      if r.Crash? {
        return;
      }
      r := CopyTree(src, tmp);
      if r.Ok? {
        VerifiedIsWhole(disk[src], disk[tmp]);
        var whole := VerifyCopy(src, tmp);
        r := if whole then Ok else Fault;
      }
    }

    /** The cross-device half of moveEntry: copy to tmp, verify, rename into place, remove src. */
    method CopyEntry(src: Path, dst: Path, tmp: Path) returns (r: MoveResult)
      requires src != dst && src != tmp && dst != tmp
      requires src in disk && dst !in disk && !oneDevice
      modifies this
      ensures stops == old(stops) + if r.Stopped? then 1 else 0
      ensures SameExcept(old(disk), disk, {src, dst, tmp})
      ensures r.Done? ==> Committed(old(disk), disk, src, dst) && src !in disk
      ensures r.Left? ==> Committed(old(disk), disk, src, dst) && faults > old(faults)
      ensures r.NotMoved? ==> Untouched(old(disk), disk, src, dst) && faults > old(faults)
      ensures r.Stopped? ==> Untouched(old(disk), disk, src, dst) || Committed(old(disk), disk, src, dst)
      ensures !r.Refused?
      ensures !r.Stopped? && faults == old(faults) ==> tmp !in disk
      ensures faults >= old(faults)
    {
      var copied := Assemble(src, tmp);
      if copied.Crash? {
        return Stopped;
      }
      if copied.Fault? {
        r := Abandon(tmp);
        return;
      }
      var renamed := Rename(tmp, dst);
      if renamed.Crash? {
        return Stopped;
      }
      if !renamed.Ok? {
        // A drive that renames next to itself across devices counts as failing.
        if renamed.CrossDevice? {
          faults := faults + 1;
        }
        r := Abandon(tmp);
        return;
      }
      var removed := RemoveAll(src);
      r := if removed.Crash? then Stopped else if removed.Ok? then Done else Left;
    }

    /** Removes an unfinished copy and gives up. */
    method Abandon(tmp: Path) returns (r: MoveResult)
      modifies this
      ensures stops == old(stops) + if r.Stopped? then 1 else 0
      ensures SameExcept(old(disk), disk, {tmp})
      ensures r.NotMoved? || r.Stopped?
      ensures r.NotMoved? && faults == old(faults) ==> tmp !in disk
      ensures faults >= old(faults)
    {
      var cleared := RemoveAll(tmp);
      r := if cleared.Crash? then Stopped else NotMoved;
    }

    /**
     moveEntry: a move is all or nothing at every instant. The content is whole at
     src until it is whole at dst, an existing dst is never replaced, and without a
     fault a present source and a free destination mean the move happens.
     */
    method MoveEntry(src: Path, dst: Path, tmp: Path) returns (r: MoveResult)
      requires src != dst && src != tmp && dst != tmp
      modifies this
      ensures stops == old(stops) + if r.Stopped? then 1 else 0
      ensures SameExcept(old(disk), disk, {src, dst, tmp})
      ensures r.Done? ==> Committed(old(disk), disk, src, dst) && src !in disk
      ensures r.Left? ==> Committed(old(disk), disk, src, dst) && faults > old(faults) && !oneDevice
      ensures r.Refused? ==> Untouched(old(disk), disk, src, dst) && dst in old(disk)
      ensures r.NotMoved? ==> Untouched(old(disk), disk, src, dst) && (faults > old(faults) || src !in old(disk))
      ensures r.Stopped? ==> Untouched(old(disk), disk, src, dst) || Committed(old(disk), disk, src, dst)
      ensures oneDevice ==> SameAt(old(disk), disk, tmp) && (Committed(old(disk), disk, src, dst) ==> src !in disk)
      ensures !r.Stopped? && faults == old(faults) && tmp !in old(disk) ==> tmp !in disk
      ensures faults >= old(faults)
    {
      var there := Lstat(dst);
      if there.Exists? {
        return Refused;
      }
      if there.Fault? {
        return NotMoved;
      }
      var renamed := Rename(src, dst);
      if renamed.CrossDevice? {
        r := CopyEntry(src, dst, tmp);
        return;
      }
      r := match renamed
        case Ok => Done
        case Exists => Refused
        case Crash => Stopped
        case _ => NotMoved;
    }
  }
}
