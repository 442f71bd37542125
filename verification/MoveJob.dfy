/**
 One title's move and its crash recovery (internal/library/move_job.go).

 The journal row, the catalogue and the drive outlive a crash; everything else
 is lost with it.
 */
module MoveJob {
  import opened Collections
  import opened MoveFs

  datatype Status = Pending | Moving | FsDone | Moved | Skipped | Failed | RolledBack

  datatype Op = Op(src: Path, dst: Path)

  /** Where one catalogued file ends up. */
  datatype FileDest = FileDest(id: string, rel: string, abs: string)

  datatype FileRow = FileRow(library: string, rel: string, abs: string, online: bool)

  /** The rows a move can change: the title's library and the media file rows. */
  datatype Catalogue = Catalogue(library: string, files: map<string, FileRow>)

  /** A planned title: its journal row id, operations, catalogued files and destination library. */
  datatype Unit = Unit(row: string, ops: seq<Op>, files: seq<FileDest>, dest: string)

  // ---------------------------------------------------------------------
  // The catalogue update
  // ---------------------------------------------------------------------

  /** The updates of media_files, in order; an unknown id updates nothing. */
  function WithFiles(rows: map<string, FileRow>, files: seq<FileDest>, dest: string): (r: map<string, FileRow>)
    ensures r.Keys == rows.Keys
  {
    if files == [] then rows
    else
      var f := files[|files| - 1];
      var before := WithFiles(rows, files[..|files| - 1], dest);
      if f.id in before then before[f.id := FileRow(dest, f.rel, f.abs, true)] else before
  }

  function Applied(c: Catalogue, files: seq<FileDest>, dest: string): (r: Catalogue)
    ensures r.library == dest && r.files.Keys == c.files.Keys
  {
    Catalogue(dest, WithFiles(c.files, files, dest))
  }

  /** The last update that names id, or -1. */
  function LastMention(files: seq<FileDest>, id: string): (k: int)
    ensures -1 <= k < |files|
    ensures k >= 0 ==> files[k].id == id
    ensures forall j :: k < j < |files| ==> files[j].id != id
  {
    if files == [] then -1
    else if files[|files| - 1].id == id then |files| - 1
    else LastMention(files[..|files| - 1], id)
  }

  /** A row takes its last mention; a row no update names stays as it was. */
  lemma {:induction false} WithFilesAt(rows: map<string, FileRow>, files: seq<FileDest>, dest: string, id: string)
    requires id in rows
    ensures var k := LastMention(files, id);
            WithFiles(rows, files, dest)[id] ==
            if k < 0 then rows[id] else FileRow(dest, files[k].rel, files[k].abs, true)
  {
    if files != [] && files[|files| - 1].id != id {
      WithFilesAt(rows, files[..|files| - 1], dest, id);
    }
  }

  /** Recovery may commit the update again after a crash: the second time changes nothing. */
  lemma AppliedTwice(c: Catalogue, files: seq<FileDest>, dest: string)
    ensures Applied(Applied(c, files, dest), files, dest) == Applied(c, files, dest)
  {
    var once := WithFiles(c.files, files, dest);
    var twice := WithFiles(once, files, dest);
    forall id | id in once ensures twice[id] == once[id] {
      WithFilesAt(c.files, files, dest, id);
      WithFilesAt(once, files, dest, id);
    }
    assert twice == once;
  }

  /** The database: the unit's journal status and the catalogue. */
  class Database {
    var status: Status
    var catalogue: Catalogue
    ghost var faults: nat
    ghost var stops: nat

    constructor (catalogue: Catalogue)
      ensures status == Pending && this.catalogue == catalogue && faults == stops == 0
    {
      status, this.catalogue, faults, stops := Pending, catalogue, 0, 0;
    }

    /** setItem: the write itself is taken to succeed; the machine may stop before or after it. */
    method SetItem(s: Status) returns (stopped: bool)
      modifies this`status, this`stops
      ensures stops == old(stops) + if stopped then 1 else 0
      ensures status == s || status == old(status)
      ensures !stopped ==> status == s
    {
      stopped := *;
      if stopped {
        stops := stops + 1;
        var before: bool := *;
        if before {
          return;
        }
      }
      status := s;
    }

    /** applyMove: one transaction, so either every row changes or none does. */
    method ApplyMove(files: seq<FileDest>, dest: string) returns (r: Step)
      modifies this`catalogue, this`faults, this`stops
      ensures stops == old(stops) + if r.Crash? then 1 else 0
      ensures r.Ok? || r.Fault? || r.Crash?
      ensures r.Ok? ==> dest != "" && catalogue == Applied(old(catalogue), files, dest)
      ensures r.Fault? ==> catalogue == old(catalogue) && (dest == "" || faults > old(faults))
      ensures r.Crash? ==> catalogue == old(catalogue) || catalogue == Applied(old(catalogue), files, dest)
      ensures faults >= old(faults)
    {
      if dest == "" {
        return Fault;
      }
      var rows := catalogue.files;
      for i := 0 to |files|
        invariant rows == WithFiles(catalogue.files, files[..i], dest)
        invariant catalogue == old(catalogue) && faults == old(faults) && stops == old(stops)
      {
        if * {
          faults := faults + 1;
          return Fault;
        }
        var f := files[i];
        assert files[..i + 1][..i] == files[..i];
        if f.id in rows {
          rows := rows[f.id := FileRow(dest, f.rel, f.abs, true)];
        }
      }
      assert files[..|files|] == files;
      if * {
        faults := faults + 1;
        return Fault;
      }
      var stopBefore, stopAfter: bool := *, *;
      if stopBefore {
        stops := stops + 1;
        return Crash;
      }
      catalogue := Catalogue(dest, rows);
      if stopAfter {
        stops := stops + 1;
      }
      r := if stopAfter then Crash else Ok;
    }
  }

  // ---------------------------------------------------------------------
  // Where each operation stands, relative to the disk d0 the unit started from
  // ---------------------------------------------------------------------

  /** Sources and destinations are named entries, all of them different. */
  ghost predicate Distinct(ops: seq<Op>) {
    && (forall i :: 0 <= i < |ops| ==> ops[i].src.Entry? && ops[i].dst.Entry?)
    && (forall i, j :: 0 <= i < j < |ops| ==> ops[i].src != ops[j].src && ops[i].dst != ops[j].dst)
    && (forall i, j :: 0 <= i < |ops| && 0 <= j < |ops| ==> ops[i].src != ops[j].dst)
  }

  /** Every source exists and every destination is free, as the planner leaves them. */
  ghost predicate Ready(d0: Disk, ops: seq<Op>) {
    forall i :: 0 <= i < |ops| ==> ops[i].src in d0 && ops[i].dst !in d0
  }

  /** op has not happened. */
  ghost predicate Unmoved(d0: Disk, d: Disk, op: Op) {
    Untouched(d0, d, op.src, op.dst)
  }

  /** op has happened: its whole content is at a destination that was free. */
  ghost predicate There(d0: Disk, d: Disk, op: Op) {
    Committed(d0, d, op.src, op.dst)
  }

  /** op was put back but its destination is not fully deleted yet. */
  ghost predicate Slipped(d0: Disk, d: Disk, op: Op) {
    && op.src in d0 && op.dst !in d0
    && op.src in d && d[op.src] == d0[op.src]
    && op.dst in d && SubTree(d[op.dst], d0[op.src])
  }

  /** The whole content is at the source. */
  ghost predicate AtSrc(d0: Disk, d: Disk, op: Op) {
    op.src in d0 && op.src in d && d[op.src] == d0[op.src]
  }

  /** The whole content is at the destination. */
  ghost predicate AtDst(d0: Disk, d: Disk, op: Op) {
    op.src in d0 && op.dst in d && d[op.dst] == d0[op.src]
  }

  /** An existing destination is whole, and without one the source is. */
  ghost predicate Placed(d0: Disk, d: Disk, op: Op) {
    AtDst(d0, d, op) || (op.dst !in d && AtSrc(d0, d, op))
  }

  ghost predicate AllUnmoved(d0: Disk, d: Disk, ops: seq<Op>) {
    forall i :: 0 <= i < |ops| ==> Unmoved(d0, d, ops[i])
  }

  ghost predicate AllAtSrc(d0: Disk, d: Disk, ops: seq<Op>) {
    forall i :: 0 <= i < |ops| ==> AtSrc(d0, d, ops[i])
  }

  ghost predicate AllAtDst(d0: Disk, d: Disk, ops: seq<Op>) {
    forall i :: 0 <= i < |ops| ==> AtDst(d0, d, ops[i])
  }

  ghost predicate AllPlaced(d0: Disk, d: Disk, ops: seq<Op>) {
    forall i :: 0 <= i < |ops| ==> Placed(d0, d, ops[i])
  }

  /** No content is lost: whatever was at a source is whole there or at its destination. */
  ghost predicate Kept(d0: Disk, d: Disk, ops: seq<Op>) {
    forall i :: 0 <= i < |ops| && ops[i].src in d0 ==> AtSrc(d0, d, ops[i]) || AtDst(d0, d, ops[i])
  }

  /** Whatever already was at a destination is still there, unchanged. */
  ghost predicate NothingReplaced(d0: Disk, d: Disk, ops: seq<Op>) {
    forall i :: 0 <= i < |ops| && ops[i].dst in d0 ==> SameAt(d0, d, ops[i].dst)
  }

  /** The named entries are the same on both disks. */
  ghost predicate SameEntries(d0: Disk, d1: Disk) {
    forall p: Path :: p.Entry? ==> (p in d0 <==> p in d1) && (p in d0 ==> d0[p] == d1[p])
  }

  /** Named entries other than the operations' own ends are untouched. */
  ghost predicate OnlyOps(d0: Disk, d: Disk, ops: seq<Op>) {
    forall p: Path :: p.Entry? && (forall i :: 0 <= i < |ops| ==> p != ops[i].src && p != ops[i].dst) ==>
      (p in d0 <==> p in d) && (p in d0 ==> d0[p] == d[p])
  }

  /** The first k operations are done and the others untouched. */
  ghost predicate Forward(d0: Disk, d: Disk, ops: seq<Op>, k: nat) {
    && (forall i :: 0 <= i < k && i < |ops| ==> There(d0, d, ops[i]))
    && (forall i :: k <= i < |ops| ==> Unmoved(d0, d, ops[i]))
  }

  /**
   How op, done before, may stand once a rollback has handled it: never lost. `all` says every
   put-back so far succeeded, `safe` that a put-back cannot be stopped with part of its destination
   deleted, `exact` that none leaves any of it behind.
   */
  ghost predicate HandledBack(d0: Disk, d: Disk, op: Op, all: bool, safe: bool, exact: bool) {
    && (Unmoved(d0, d, op) || There(d0, d, op) || Slipped(d0, d, op))
    && (all ==> SameAt(d0, d, op.src))
    && (safe ==> Unmoved(d0, d, op) || There(d0, d, op))
    && (all && exact ==> Unmoved(d0, d, op))
  }

  /** The first k operations were done; a rollback that started from d1 has handled those from i on. */
  ghost predicate Backward(d0: Disk, d1: Disk, d: Disk, ops: seq<Op>, i: nat, k: nat, all: bool, safe: bool, exact: bool) {
    && (forall j :: 0 <= j < i && j < |ops| ==> There(d0, d, ops[j]) && Untouched(d1, d, ops[j].src, ops[j].dst))
    && (forall j :: i <= j < k && j < |ops| ==> HandledBack(d0, d, ops[j], all, safe, exact))
    && (forall j :: k <= j < |ops| ==> Unmoved(d0, d, ops[j]))
    && OnlyOps(d1, d, ops)
  }

  /** No operation is half put back. */
  ghost predicate NoneSlipped(d0: Disk, d: Disk, ops: seq<Op>) {
    forall j :: 0 <= j < |ops| ==> Unmoved(d0, d, ops[j]) || There(d0, d, ops[j])
  }

  /** A step that touches only op i and a partial copy leaves the other operations alone. */
  lemma OtherOps(d1: Disk, d2: Disk, ops: seq<Op>, i: nat, tmp: Path)
    requires Distinct(ops) && i < |ops| && tmp.Partial?
    requires SameExcept(d1, d2, {ops[i].src, ops[i].dst, tmp})
    ensures forall j :: 0 <= j < |ops| && j != i ==> Untouched(d1, d2, ops[j].src, ops[j].dst)
    ensures OnlyOps(d1, d2, ops)
  {
  }

  lemma ForwardStep(d0: Disk, d1: Disk, d2: Disk, ops: seq<Op>, i: nat, tmp: Path)
    requires Distinct(ops) && i < |ops| && tmp.Partial?
    requires Forward(d0, d1, ops, i)
    requires SameExcept(d1, d2, {ops[i].src, ops[i].dst, tmp})
    ensures Untouched(d1, d2, ops[i].src, ops[i].dst) ==> Forward(d0, d2, ops, i)
    ensures Committed(d1, d2, ops[i].src, ops[i].dst) ==> Forward(d0, d2, ops, i + 1)
  {
    hide There, Unmoved, Untouched, Committed, SameExcept, Distinct, OnlyOps;
    OtherOps(d1, d2, ops, i, tmp);
    forall j | 0 <= j < |ops| && j != i
      ensures if j < i then There(d0, d2, ops[j]) else Unmoved(d0, d2, ops[j])
    {
      OpStays(d0, d1, d2, ops[j]);
    }
    OpHappens(d0, d1, d2, ops[i]);
  }

  lemma OpStays(d0: Disk, d1: Disk, d2: Disk, op: Op)
    requires Untouched(d1, d2, op.src, op.dst)
    ensures There(d0, d1, op) ==> There(d0, d2, op)
    ensures Unmoved(d0, d1, op) ==> Unmoved(d0, d2, op)
  {
  }

  lemma OpHappens(d0: Disk, d1: Disk, d2: Disk, op: Op)
    requires Unmoved(d0, d1, op)
    ensures Untouched(d1, d2, op.src, op.dst) ==> Unmoved(d0, d2, op)
    ensures Committed(d1, d2, op.src, op.dst) ==> There(d0, d2, op)
  {
  }

  /** One put-back, whatever it answered, given what moveEntry promises about it. */
  lemma HandledStep(d0: Disk, d: Disk, d': Disk, op: Op, all: bool, safe: bool, exact: bool, r: MoveResult)
    requires op.src != op.dst && There(d0, d, op)
    requires Untouched(d, d', op.src, op.dst) || Committed(d, d', op.dst, op.src)
    requires r.Done? ==> Committed(d, d', op.dst, op.src) && op.dst !in d'
    requires r.Left? ==> Committed(d, d', op.dst, op.src) && !exact
    requires safe && Committed(d, d', op.dst, op.src) && op.dst in d' ==> OnePiece(d0[op.src])
    ensures HandledBack(d0, d', op, all && (r.Done? || r.Left?), safe, exact)
  {
    if Committed(d, d', op.dst, op.src) {
      assert SameAt(d0, d', op.src);
      if op.dst in d' {
        assert Slipped(d0, d', op);
      }
    } else {
      assert There(d0, d', op);
    }
  }

  /** What a rollback has handled stays handled while it goes on with other operations. */
  lemma HandledStays(d0: Disk, d: Disk, d': Disk, op: Op, all: bool, all': bool, safe: bool, exact: bool, exact': bool)
    requires HandledBack(d0, d, op, all, safe, exact)
    requires Untouched(d, d', op.src, op.dst) && (all' ==> all) && (exact' ==> exact)
    ensures HandledBack(d0, d', op, all', safe, exact')
  {
  }

  lemma BackwardStep(d0: Disk, d1: Disk, d: Disk, d': Disk, ops: seq<Op>, i: nat, k: nat, tmp: Path,
                     all: bool, all': bool, safe: bool, exact: bool, exact': bool)
    requires Distinct(ops) && i < k <= |ops| && tmp.Partial?
    requires Backward(d0, d1, d, ops, i + 1, k, all, safe, exact)
    requires SameExcept(d, d', {ops[i].src, ops[i].dst, tmp})
    requires (all' ==> all) && (exact' ==> exact)
    requires HandledBack(d0, d', ops[i], all', safe, exact')
    ensures Backward(d0, d1, d', ops, i, k, all', safe, exact')
  {
    OtherOps(d, d', ops, i, tmp);
    forall j | i + 1 <= j < k ensures HandledBack(d0, d', ops[j], all', safe, exact') {
      HandledStays(d0, d, d', ops[j], all, all', safe, exact, exact');
    }
    forall j | 0 <= j < |ops| && (j < i || k <= j)
      ensures if j < i then There(d0, d', ops[j]) && Untouched(d1, d', ops[j].src, ops[j].dst) else Unmoved(d0, d', ops[j])
    {
      assert Untouched(d, d', ops[j].src, ops[j].dst);
    }
  }

  lemma BackwardStarts(d0: Disk, d: Disk, ops: seq<Op>, k: nat, safe: bool)
    requires k <= |ops| && Forward(d0, d, ops, k)
    ensures Backward(d0, d, d, ops, k, k, true, safe, true)
  {
  }

  /** The operation whose turn it is to be put back. */
  lemma BackwardNext(d0: Disk, d1: Disk, d: Disk, ops: seq<Op>, i: nat, k: nat, all: bool, safe: bool, exact: bool)
    requires i < k <= |ops| && Backward(d0, d1, d, ops, i + 1, k, all, safe, exact)
    ensures There(d0, d, ops[i]) && ops[i].src in d0 && ops[i].dst in d && Untouched(d1, d, ops[i].src, ops[i].dst)
  {
  }

  lemma MovedBack(d0: Disk, d: Disk, d': Disk, op: Op)
    requires There(d0, d, op) && Committed(d, d', op.dst, op.src)
    ensures SameAt(d0, d', op.src)
  {
  }

  /** A rollback that stops is no worse than one that could not put the rest back. */
  lemma BackwardStops(d0: Disk, d1: Disk, d: Disk, ops: seq<Op>, i: nat, k: nat, safe: bool, exact: bool)
    requires i <= k <= |ops| && Backward(d0, d1, d, ops, i, k, false, safe, exact)
    ensures Backward(d0, d1, d, ops, 0, k, false, safe, exact)
  {
    forall j | 0 <= j < k ensures HandledBack(d0, d, ops[j], false, safe, exact) {
    }
  }

  /** However far a rollback got, no content is lost and nothing at a destination is replaced. */
  lemma BackwardKeeps(d0: Disk, d1: Disk, d: Disk, ops: seq<Op>, i: nat, k: nat, all: bool, safe: bool, exact: bool)
    requires Backward(d0, d1, d, ops, i, k, all, safe, exact)
    ensures Kept(d0, d, ops) && NothingReplaced(d0, d, ops)
    ensures safe ==> NoneSlipped(d0, d, ops)
  {
    forall j | 0 <= j < |ops|
      ensures Unmoved(d0, d, ops[j]) || There(d0, d, ops[j]) || Slipped(d0, d, ops[j])
      ensures safe ==> Unmoved(d0, d, ops[j]) || There(d0, d, ops[j])
    {
    }
  }

  /** Where a finished rollback has put everything back. */
  lemma BackwardEnds(d0: Disk, d1: Disk, d: Disk, ops: seq<Op>, k: nat, all: bool, safe: bool, exact: bool)
    requires Backward(d0, d1, d, ops, 0, k, all, safe, exact)
    ensures OnlyOps(d1, d, ops)
    ensures all ==> forall i :: 0 <= i < |ops| ==> SameAt(d0, d, ops[i].src)
    ensures all && exact ==> AllUnmoved(d0, d, ops)
  {
    forall i | 0 <= i < |ops| && all ensures SameAt(d0, d, ops[i].src) && (exact ==> Unmoved(d0, d, ops[i])) {
      assert i >= k ==> Unmoved(d0, d, ops[i]);
    }
  }

  lemma OnlyOpsAgain(d0: Disk, d: Disk, d': Disk, ops: seq<Op>)
    requires OnlyOps(d0, d, ops) && OnlyOps(d, d', ops)
    ensures OnlyOps(d0, d', ops)
  {
  }

  lemma ForwardKeeps(d0: Disk, d: Disk, ops: seq<Op>, k: nat)
    requires Forward(d0, d, ops, k)
    ensures Kept(d0, d, ops) && NothingReplaced(d0, d, ops) && NoneSlipped(d0, d, ops)
  {
    forall j | 0 <= j < |ops| ensures Unmoved(d0, d, ops[j]) || There(d0, d, ops[j]) {
    }
  }

  /** The operation, if its source is there at all, moves one piece. */
  ghost predicate MovesOnePiece(d0: Disk, op: Op) {
    op.src in d0 ==> OnePiece(d0[op.src])
  }

  /**
   What the planner makes of a title: one operation, on its folder, or operations on files only. Such a
   title has no folder to put back while its row is `moving`.
   */
  ghost predicate Planned(d0: Disk, ops: seq<Op>) {
    |ops| <= 1 || forall i :: 0 <= i < |ops| ==> MovesOnePiece(d0, ops[i])
  }

  /** Putting back the first k operations cannot be stopped with part of a destination deleted. */
  ghost predicate SafelyTo(oneDevice: bool, d0: Disk, ops: seq<Op>, k: nat)
    requires k <= |ops|
  {
    oneDevice || forall i :: 0 <= i < k ==> MovesOnePiece(d0, ops[i])
  }

  /** Nor can putting back those of a set. */
  ghost predicate Safely(oneDevice: bool, d0: Disk, ops: seq<Op>, put: seq<bool>)
    requires |put| <= |ops|
  {
    oneDevice || forall i :: 0 <= i < |put| && put[i] ==> MovesOnePiece(d0, ops[i])
  }

  /** A planned title whose last operation has not happened is put back safely. */
  lemma PlannedIsSafe(oneDevice: bool, d0: Disk, ops: seq<Op>, k: nat)
    requires k < |ops| && (oneDevice || Planned(d0, ops))
    ensures SafelyTo(oneDevice, d0, ops, k)
  {
  }

  /** So is one of which some destination is missing. */
  lemma IncompleteIsSafe(oneDevice: bool, d0: Disk, ops: seq<Op>, complete: seq<bool>)
    requires |complete| == |ops| && (ops == [] || false in complete) && (oneDevice || Planned(d0, ops))
    ensures Safely(oneDevice, d0, ops, complete)
  {
  }

  // ---------------------------------------------------------------------
  // Executing a unit
  // ---------------------------------------------------------------------

  datatype BackResult = PutBack | NotAllBack | BackStopped

  /** How many of the operations from i up to k do not have their sources back. */
  ghost function NotBack(d0: Disk, d: Disk, ops: seq<Op>, i: nat, k: nat): nat
    requires i <= k <= |ops|
    decreases k - i
  {
    if i == k then 0 else NotBack(d0, d, ops, i + 1, k) + if SameAt(d0, d, ops[i].src) then 0 else 1
  }

  /** How many of them have something at their sources. */
  ghost function Occupied(d: Disk, ops: seq<Op>, i: nat, k: nat): nat
    requires i <= k <= |ops|
    decreases k - i
  {
    if i == k then 0 else Occupied(d, ops, i + 1, k) + if ops[i].src in d then 1 else 0
  }

  lemma {:induction false} NotBackSame(d0: Disk, d: Disk, d': Disk, ops: seq<Op>, i: nat, k: nat)
    requires i <= k <= |ops| && forall j :: i <= j < k ==> Untouched(d, d', ops[j].src, ops[j].dst)
    ensures NotBack(d0, d', ops, i, k) == NotBack(d0, d, ops, i, k)
    decreases k - i
  {
    if i < k {
      NotBackSame(d0, d, d', ops, i + 1, k);
    }
  }

  /** One more operation has been handled: it is back, or something is at its source, or a step has failed. */
  lemma NotBackStep(d0: Disk, d1: Disk, d: Disk, d': Disk, ops: seq<Op>, i: nat, k: nat, tmp: Path, faults: nat, faults': nat)
    requires Distinct(ops) && i < k <= |ops| && tmp.Partial? && SameExcept(d, d', {ops[i].src, ops[i].dst, tmp})
    requires NotBack(d0, d, ops, i + 1, k) <= faults + Occupied(d1, ops, i + 1, k)
    requires faults' >= faults && (faults' > faults || ops[i].src in d1 || SameAt(d0, d', ops[i].src))
    ensures NotBack(d0, d', ops, i, k) <= faults' + Occupied(d1, ops, i, k)
  {
    OtherOps(d, d', ops, i, tmp);
    NotBackSame(d0, d, d', ops, i + 1, k);
  }

  /** What has not been begun, or is untouched since, is not what is missing. */
  lemma {:induction false} NotBackMore(d0: Disk, d: Disk, ops: seq<Op>, i: nat, k: nat)
    requires i <= k <= |ops| && forall j :: k <= j < |ops| ==> SameAt(d0, d, ops[j].src)
    ensures NotBack(d0, d, ops, i, |ops|) == NotBack(d0, d, ops, i, k)
    decreases |ops| - i
  {
    if i < k {
      NotBackMore(d0, d, ops, i + 1, k);
    } else if k < |ops| {
      NotBackMore(d0, d, ops, i + 1, k + 1);
    }
  }

  lemma {:induction false} OccupiedNext(d: Disk, d': Disk, ops: seq<Op>, i: nat, k: nat)
    requires i <= k < |ops| && forall j :: i <= j < k ==> SameAt(d, d', ops[j].src)
    ensures Occupied(d', ops, i, k + 1) == Occupied(d, ops, i, k) + if ops[k].src in d' then 1 else 0
    decreases k - i
  {
    if i < k {
      OccupiedNext(d, d', ops, i + 1, k);
    }
  }

  lemma NoneToPutBack(d0: Disk, d: Disk, ops: seq<Op>, k: nat)
    requires k <= |ops|
    ensures NotBack(d0, d, ops, k, k) == 0 == Occupied(d, ops, k, k)
  {
  }

  /** rollbackOps: puts the done operations back, newest first, going on past those that fail. */
  method RollbackOps(drive: Drive, ops: seq<Op>, done: seq<nat>, row: string, ghost d0: Disk) returns (r: BackResult)
    requires Distinct(ops) && |done| <= |ops| && forall i :: 0 <= i < |done| ==> done[i] == i
    requires Forward(d0, drive.disk, ops, |done|)
    modifies drive
    ensures drive.stops == old(drive.stops) + if r.BackStopped? then 1 else 0
    ensures Backward(d0, old(drive.disk), drive.disk, ops, 0, |done|,
                     r.PutBack?, SafelyTo(drive.oneDevice, d0, ops, |done|), drive.oneDevice || drive.faults == old(drive.faults))
    ensures (forall i :: 0 <= i < |done| ==> ops[i].src !in old(drive.disk)) && drive.faults == old(drive.faults) ==>
              !r.NotAllBack?
    ensures !r.BackStopped? ==>
              NotBack(d0, drive.disk, ops, 0, |done|) <= drive.faults - old(drive.faults) + Occupied(old(drive.disk), ops, 0, |done|)
    ensures drive.faults >= old(drive.faults)
  {
    hide NotBack, Occupied, Backward, Forward, HandledBack, Committed, There, Distinct, SubTree, SameExcept;
    NoneToPutBack(d0, drive.disk, ops, |done|);
    BackwardStarts(d0, drive.disk, ops, |done|, SafelyTo(drive.oneDevice, d0, ops, |done|));
    var all := true;
    ghost var d1, f1, k, safe := drive.disk, drive.faults, |done|, SafelyTo(drive.oneDevice, d0, ops, |done|);
    ghost var clear := forall i :: 0 <= i < k ==> ops[i].src !in d1;
    for i := |done| downto 0
      invariant Backward(d0, d1, drive.disk, ops, i, k, all, safe, drive.oneDevice || drive.faults == f1)
      invariant clear && drive.faults == f1 ==> all
      invariant drive.faults >= f1 && drive.stops == old(drive.stops)
      invariant NotBack(d0, drive.disk, ops, i, k) <= drive.faults - f1 + Occupied(d1, ops, i, k)
    {
      ghost var d := drive.disk;
      ghost var exact := drive.oneDevice || drive.faults == f1;
      ghost var f := drive.faults - f1;
      var op := ops[done[i]];
      DestinationIsNamed(ops, i);
      BackwardNext(d0, d1, d, ops, i, k, all, safe, exact);
      var tmp := TmpName(op.src, row + "-back", done[i]);
      var moved := drive.MoveEntry(op.dst, op.src, tmp);
      var back := moved.Done? || moved.Left?;
      ghost var exact' := drive.oneDevice || drive.faults == f1;
      assert safe ==> drive.oneDevice || MovesOnePiece(d0, ops[i]);
      HandledStep(d0, d, drive.disk, op, all, safe, exact', moved);
      if back {
        MovedBack(d0, d, drive.disk, op);
      }
      BackwardStep(d0, d1, d, drive.disk, ops, i, k, tmp, all, all && back, safe, exact, exact');
      all := all && back;
      if !moved.Stopped? {
        NotBackStep(d0, d1, d, drive.disk, ops, i, k, tmp, f, drive.faults - f1);
      }
      if moved.Stopped? {
        BackwardStops(d0, d1, drive.disk, ops, i, k, safe, exact');
        return BackStopped;
      }
    }
    r := if all then PutBack else NotAllBack;
  }

  /** The catalogue is as before the move, or wholly updated. */
  ghost predicate CatalogueIs(c0: Catalogue, c: Catalogue, u: Unit) {
    c == c0 || c == Applied(c0, u.files, u.dest)
  }

  /**
   What must hold after a crash for the move to be finished or undone from the journal row, the
   catalogue and the paths that exist, given the disk d0 and the catalogue c0 it started from.
   */
  ghost predicate Recoverable(d0: Disk, c0: Catalogue, d: Disk, c: Catalogue, s: Status, u: Unit) {
    && CatalogueIs(c0, c, u)
    && match s
       case Moving => AllPlaced(d0, d, u.ops) && (c == c0 || (u.ops != [] && AllAtDst(d0, d, u.ops)))
       case FsDone => AllAtDst(d0, d, u.ops)
       case Moved => c == Applied(c0, u.files, u.dest) && AllAtDst(d0, d, u.ops)
       case _ => c == c0 && AllUnmoved(d0, d, u.ops)
  }

  /** Every destination that exists holds its whole source. */
  ghost predicate DestinationsWhole(d0: Disk, d: Disk, ops: seq<Op>) {
    forall i :: 0 <= i < |ops| && ops[i].dst in d ==> AtDst(d0, d, ops[i])
  }

  /** What a crash must have left on disk for the row to be recovered, given that nothing is lost. */
  ghost predicate CanGoOn(d0: Disk, d: Disk, s: Status, u: Unit) {
    match s
    case Moving => DestinationsWhole(d0, d, u.ops)
    case FsDone => AllAtDst(d0, d, u.ops)
    case _ => true
  }

  lemma WholeIsPlaced(d0: Disk, d: Disk, ops: seq<Op>)
    requires Ready(d0, ops) && Kept(d0, d, ops)
    ensures AllPlaced(d0, d, ops) <==> DestinationsWhole(d0, d, ops)
  {
    forall j | 0 <= j < |ops| ensures Placed(d0, d, ops[j]) <==> (ops[j].dst in d ==> AtDst(d0, d, ops[j])) {
      assert AtSrc(d0, d, ops[j]) || AtDst(d0, d, ops[j]);
    }
  }

  lemma SoundIsPlaced(d0: Disk, d: Disk, ops: seq<Op>)
    requires Ready(d0, ops) && NoneSlipped(d0, d, ops)
    ensures AllPlaced(d0, d, ops)
  {
    forall j | 0 <= j < |ops| ensures Placed(d0, d, ops[j]) {
      assert Unmoved(d0, d, ops[j]) || There(d0, d, ops[j]);
    }
  }

  /** No copy for one of the unit's destinations is lying around. */
  ghost predicate NoPartials(d: Disk, u: Unit) {
    forall i :: 0 <= i < |u.ops| ==> TmpName(u.ops[i].dst, u.row, i) !in d
  }

  /** Without a fault the first k sources are gone, and no copy is left unfinished. */
  ghost predicate Tidy(d0: Disk, d: Disk, u: Unit, k: nat) {
    && (forall i :: 0 <= i < k && i < |u.ops| ==> u.ops[i].src !in d)
    && (NoPartials(d0, u) ==> NoPartials(d, u))
  }

  lemma TidyStep(d0: Disk, d: Disk, d': Disk, u: Unit, i: nat)
    requires Distinct(u.ops) && i < |u.ops| && Tidy(d0, d, u, i)
    requires SameExcept(d, d', {u.ops[i].src, u.ops[i].dst, TmpName(u.ops[i].dst, u.row, i)})
    requires u.ops[i].src !in d'
    requires TmpName(u.ops[i].dst, u.row, i) !in d ==> TmpName(u.ops[i].dst, u.row, i) !in d'
    ensures Tidy(d0, d', u, i + 1)
  {
    OtherOps(d, d', u.ops, i, TmpName(u.ops[i].dst, u.row, i));
    if NoPartials(d0, u) {
      forall j | 0 <= j < |u.ops| ensures TmpName(u.ops[j].dst, u.row, j) !in d' {
        assert TmpName(u.ops[j].dst, u.row, j) !in d;
      }
    }
  }

  datatype Outcome =
    | Finished(status: Status, stuck: bool)
    | Crashed(undoing: bool, stuck: bool)

  datatype OpsResult = AllMoved | OneFailed | OpsStopped

  /** The forward loop stands before its k-th operation, or stopped there. */
  ghost predicate Going(d0: Disk, d: Disk, ops: seq<Op>, k: nat) {
    k <= |ops| && Forward(d0, d, ops, k) && OnlyOps(d0, d, ops)
  }

  /** One round of the forward loop: make the destination's folder, then move the entry. */
  method MoveOne(drive: Drive, u: Unit, i: nat, ghost d0: Disk) returns (r: OpsResult)
    requires Distinct(u.ops) && i < |u.ops| && Going(d0, drive.disk, u.ops, i)
    modifies drive
    ensures drive.stops == old(drive.stops) + if r.OpsStopped? then 1 else 0
    ensures r.AllMoved? ==> Going(d0, drive.disk, u.ops, i + 1)
    ensures r.OneFailed? ==> Going(d0, drive.disk, u.ops, i)
    ensures r.OpsStopped? ==> Going(d0, drive.disk, u.ops, i) || Going(d0, drive.disk, u.ops, i + 1)
    ensures drive.faults == old(drive.faults) && Ready(d0, u.ops) ==> !r.OneFailed?
    ensures drive.faults == old(drive.faults) && r.AllMoved? && Tidy(d0, old(drive.disk), u, i) ==> Tidy(d0, drive.disk, u, i + 1)
    ensures drive.faults >= old(drive.faults)
    ensures r.AllMoved? ==>
              Occupied(drive.disk, u.ops, 0, i + 1) <= Occupied(old(drive.disk), u.ops, 0, i) + drive.faults - old(drive.faults)
    ensures r.OneFailed? ==> Occupied(drive.disk, u.ops, 0, i) == Occupied(old(drive.disk), u.ops, 0, i)
  {
    hide Forward, OnlyOps, SameExcept, Ready, Occupied, Tidy;
    DestinationIsNamed(u.ops, i);
    ReadyNow(d0, drive.disk, u.ops, i);
    var op := u.ops[i];
    var made := drive.Mkdir(op.dst.dir);
    if !made.Ok? {
      return if made.Crash? then OpsStopped else OneFailed;
    }
    ghost var d := drive.disk;
    var tmp := TmpName(op.dst, u.row, i);
    var moved := drive.MoveEntry(op.src, op.dst, tmp);
    ForwardStep(d0, d, drive.disk, u.ops, i, tmp);
    OtherOps(d, drive.disk, u.ops, i, tmp);
    OnlyOpsAgain(d0, d, drive.disk, u.ops);
    OccupiedNext(d, drive.disk, u.ops, 0, i);
    SameOccupied(d, drive.disk, u.ops, 0, i);
    if moved.Done? && drive.faults == old(drive.faults) && Tidy(d0, d, u, i) {
      TidyStep(d0, d, drive.disk, u, i);
    }
    r := if moved.Done? || moved.Left? then AllMoved else if moved.Stopped? then OpsStopped else OneFailed;
  }

  lemma {:induction false} SameOccupied(d: Disk, d': Disk, ops: seq<Op>, i: nat, k: nat)
    requires i <= k <= |ops| && forall j :: i <= j < k ==> SameAt(d, d', ops[j].src)
    ensures Occupied(d', ops, i, k) == Occupied(d, ops, i, k)
    decreases k - i
  {
    if i < k {
      SameOccupied(d, d', ops, i + 1, k);
    }
  }

  lemma DestinationIsNamed(ops: seq<Op>, i: nat)
    requires Distinct(ops) && i < |ops|
    ensures ops[i].src.Entry? && ops[i].dst.Entry? && ops[i].src != ops[i].dst
  {
  }

  /** When an operation's turn comes it is as it was: of a ready title, its source is there and its destination free. */
  lemma ReadyNow(d0: Disk, d: Disk, ops: seq<Op>, i: nat)
    requires i < |ops| && Forward(d0, d, ops, i)
    ensures Ready(d0, ops) ==> ops[i].src in d && ops[i].dst !in d
  {
    assert Unmoved(d0, d, ops[i]);
  }

  /** The forward loop of executeUnit: op after op until one fails. */
  method MoveOps(drive: Drive, u: Unit) returns (r: OpsResult, done: seq<nat>)
    requires Distinct(u.ops)
    modifies drive
    ensures drive.stops == old(drive.stops) + if r.OpsStopped? then 1 else 0
    ensures |done| <= |u.ops| && forall i :: 0 <= i < |done| ==> done[i] == i
    ensures r.AllMoved? ==> |done| == |u.ops|
    ensures r.OneFailed? ==> |done| < |u.ops|
    ensures !r.OpsStopped? ==> Going(old(drive.disk), drive.disk, u.ops, |done|)
    ensures r.OpsStopped? ==> exists k: nat :: Going(old(drive.disk), drive.disk, u.ops, k)
    ensures drive.faults == old(drive.faults) && Ready(old(drive.disk), u.ops) ==> !r.OneFailed?
    ensures drive.faults == old(drive.faults) && r.AllMoved? ==> Tidy(old(drive.disk), drive.disk, u, |u.ops|)
    ensures drive.faults >= old(drive.faults)
    ensures !r.OpsStopped? ==>
              Occupied(drive.disk, u.ops, 0, |done|) + (if r.OneFailed? && Ready(old(drive.disk), u.ops) then 1 else 0)
              <= drive.faults - old(drive.faults)
  {
    hide Occupied, Ready, Tidy, Distinct, Going;
    done := [];
    GoingFrom(drive.disk, u);
    ghost var d0, f0 := drive.disk, drive.faults;
    for i := 0 to |u.ops|
      invariant |done| == i && forall j :: 0 <= j < i ==> done[j] == j
      invariant Going(d0, drive.disk, u.ops, i)
      invariant drive.stops == old(drive.stops) && drive.faults >= f0 && Occupied(drive.disk, u.ops, 0, i) <= drive.faults - f0
      invariant drive.faults == f0 ==> Tidy(d0, drive.disk, u, i)
    {
      r := MoveOne(drive, u, i, d0);
      if !r.AllMoved? {
        return;
      }
      done := done + [i];
    }
    r := AllMoved;
  }

  lemma GoingFrom(d: Disk, u: Unit)
    ensures Going(d, d, u.ops, 0) && Tidy(d, d, u, 0) && Occupied(d, u.ops, 0, 0) == 0
  {
  }

  /** The undo of executeUnit: put back what was done, then journal the failure. */
  method Undo(drive: Drive, db: Database, u: Unit, done: seq<nat>, ghost d0: Disk) returns (out: Outcome)
    requires Distinct(u.ops) && |done| <= |u.ops| && forall i :: 0 <= i < |done| ==> done[i] == i
    requires Forward(d0, drive.disk, u.ops, |done|)
    modifies drive, db`status, db`stops
    ensures drive.stops >= old(drive.stops) && db.stops >= old(db.stops)
    ensures drive.stops + db.stops == old(drive.stops) + old(db.stops) + if out.Crashed? then 1 else 0
    ensures Backward(d0, old(drive.disk), drive.disk, u.ops, 0, |done|,
                     !out.stuck, SafelyTo(drive.oneDevice, d0, u.ops, |done|),
                     drive.oneDevice || drive.faults == old(drive.faults))
    ensures out.Finished? ==> out.status == Failed && db.status == Failed
    ensures out.Crashed? ==> out.undoing && (db.status == old(db.status) || db.status == Failed)
    ensures drive.faults >= old(drive.faults)
    ensures out.Finished? ==>
              NotBack(d0, drive.disk, u.ops, 0, |done|) <= drive.faults - old(drive.faults) + Occupied(old(drive.disk), u.ops, 0, |done|)
  {
    hide NotBack, Occupied, Backward, Forward;
    var back := RollbackOps(drive, u.ops, done, u.row, d0);
    if back.BackStopped? {
      return Crashed(true, true);
    }
    var stopped := db.SetItem(Failed);
    out := if stopped then Crashed(true, back.NotAllBack?) else Finished(Failed, back.NotAllBack?);
  }

  /**
   executeUnit. Read clause by clause: nothing outside the unit changes; no content is ever lost and
   nothing at a destination is ever replaced, however the run ends; `moved` means the files and the
   catalogue are at the destination; `failed` means the catalogue is unchanged and, unless a put-back
   failed, so is every source; without a fault only the machine's stop keeps a ready unit from being moved. A
   crash before the row says `failed` leaves a recoverable state exactly if CanGoOn holds of it, and
   it does while going forward and while a row still `moving` is undone, on one device or of a planned
   title.
   */
  method ExecuteUnit(drive: Drive, db: Database, u: Unit) returns (out: Outcome)
    requires Distinct(u.ops) && db.status == Pending
    modifies drive, db
    ensures drive.stops >= old(drive.stops) && db.stops >= old(db.stops)
    ensures drive.stops + db.stops == old(drive.stops) + old(db.stops) + if out.Crashed? then 1 else 0
    ensures OnlyOps(old(drive.disk), drive.disk, u.ops)
    ensures Kept(old(drive.disk), drive.disk, u.ops) && NothingReplaced(old(drive.disk), drive.disk, u.ops)
    ensures out.Finished? ==> out.status == db.status && (db.status == Moved || db.status == Failed)
    ensures out.Finished? && db.status == Moved ==>
              && AllAtDst(old(drive.disk), drive.disk, u.ops)
              && db.catalogue == Applied(old(db.catalogue), u.files, u.dest)
              && (drive.faults == old(drive.faults) ==> Tidy(old(drive.disk), drive.disk, u, |u.ops|))
    ensures db.status == Failed ==>
              && db.catalogue == old(db.catalogue)
              && (!out.stuck ==> forall i :: 0 <= i < |u.ops| ==> SameAt(old(drive.disk), drive.disk, u.ops[i].src))
              && (!out.stuck && drive.oneDevice ==> AllUnmoved(old(drive.disk), drive.disk, u.ops))
    ensures drive.faults == old(drive.faults) && db.faults == old(db.faults) && Ready(old(drive.disk), u.ops) && u.dest != "" ==>
              out == Finished(Moved, false) || out == Crashed(false, false)
    ensures out.Finished? && db.status == Failed ==>
              NotBack(old(drive.disk), drive.disk, u.ops, 0, |u.ops|)
              + (if Ready(old(drive.disk), u.ops) && u.dest != "" then 1 else 0)
              <= drive.faults - old(drive.faults) + db.faults - old(db.faults)
    ensures out.Crashed? && Ready(old(drive.disk), u.ops) && db.status != Failed ==>
              && (Recoverable(old(drive.disk), old(db.catalogue), drive.disk, db.catalogue, db.status, u)
                  <==> CanGoOn(old(drive.disk), drive.disk, db.status, u))
              && (!out.undoing || (db.status == Moving && (drive.oneDevice || Planned(old(drive.disk), u.ops))) ==>
                    CanGoOn(old(drive.disk), drive.disk, db.status, u))
    ensures out.Crashed? ==> db.status != Skipped && db.status != RolledBack && (db.status == Failed ==> out.undoing)
    ensures out.Crashed? && out.undoing && db.status != Failed ==>
              db.status == Moving || (db.status == FsDone && (u.dest == "" || db.faults > old(db.faults)))
    ensures db.status == Pending ==> drive.disk == old(drive.disk)
    ensures db.status == Pending || db.status == Moving ==> db.catalogue == old(db.catalogue)
    ensures out.Crashed? && (db.status == FsDone || db.status == Moved) && drive.faults == old(drive.faults) && !out.undoing ==>
              Tidy(old(drive.disk), drive.disk, u, |u.ops|)
    ensures db.faults >= old(db.faults) && drive.faults >= old(drive.faults)
  {
    hide Recoverable, CanGoOn, Forward, Going, Kept, NothingReplaced, OnlyOps, AllAtDst, AllUnmoved, Distinct;
    hide Tidy, SameAt, Ready, Applied, NotBack, Occupied;
    hide Planned, SafelyTo;
    ghost var d0, c0 := drive.disk, db.catalogue;
    NothingYet(d0, c0, u);
    var stopped := db.SetItem(Moving);
    if stopped {
      return Crashed(false, false);
    }
    var r, done := MoveOps(drive, u);
    if r.OpsStopped? {
      ghost var k: nat :| Going(d0, drive.disk, u.ops, k);
      OnTheWay(d0, c0, drive.disk, u, k);
      return Crashed(false, false);
    }
    OnTheWay(d0, c0, drive.disk, u, |done|);
    if r.OneFailed? {
      if drive.oneDevice || Planned(d0, u.ops) {
        PlannedIsSafe(drive.oneDevice, d0, u.ops, |done|);
      }
      out := UndoUnit(drive, db, u, done, d0, c0);
      return;
    }
    AllThere(d0, c0, drive.disk, u);
    stopped := db.SetItem(FsDone);
    if stopped {
      return Crashed(false, false);
    }
    var applied := db.ApplyMove(u.files, u.dest);
    if applied.Crash? {
      return Crashed(false, false);
    }
    if applied.Fault? {
      out := UndoUnit(drive, db, u, done, d0, c0);
      return;
    }
    stopped := db.SetItem(Moved);
    out := if stopped then Crashed(false, false) else Finished(Moved, false);
  }

  /** Before anything has happened. */
  lemma NothingYet(d0: Disk, c0: Catalogue, u: Unit)
    ensures OnlyOps(d0, d0, u.ops) && Kept(d0, d0, u.ops) && NothingReplaced(d0, d0, u.ops)
    ensures Ready(d0, u.ops) ==>
              && Recoverable(d0, c0, d0, c0, Pending, u) && CanGoOn(d0, d0, Pending, u)
              && Recoverable(d0, c0, d0, c0, Moving, u) && CanGoOn(d0, d0, Moving, u)
  {
  }

  /** What holds between two operations. */
  lemma OnTheWay(d0: Disk, c0: Catalogue, d: Disk, u: Unit, k: nat)
    requires Going(d0, d, u.ops, k)
    ensures Forward(d0, d, u.ops, k) && OnlyOps(d0, d, u.ops) && Kept(d0, d, u.ops) && NothingReplaced(d0, d, u.ops)
    ensures Ready(d0, u.ops) ==> Recoverable(d0, c0, d, c0, Moving, u) && CanGoOn(d0, d, Moving, u)
  {
    ForwardKeeps(d0, d, u.ops, k);
    if Ready(d0, u.ops) {
      SoundIsPlaced(d0, d, u.ops);
      WholeIsPlaced(d0, d, u.ops);
    }
  }

  /** What holds when all operations have happened, before and after the catalogue is updated. */
  lemma AllThere(d0: Disk, c0: Catalogue, d: Disk, u: Unit)
    requires Forward(d0, d, u.ops, |u.ops|)
    ensures AllAtDst(d0, d, u.ops) && CanGoOn(d0, d, FsDone, u) && CanGoOn(d0, d, Moved, u)
    ensures Recoverable(d0, c0, d, c0, FsDone, u)
    ensures Recoverable(d0, c0, d, Applied(c0, u.files, u.dest), FsDone, u)
    ensures Recoverable(d0, c0, d, Applied(c0, u.files, u.dest), Moved, u)
  {
  }

  /** Undo, with what it means for the unit as a whole. */
  method UndoUnit(drive: Drive, db: Database, u: Unit, done: seq<nat>, ghost d0: Disk, ghost c0: Catalogue) returns (out: Outcome)
    requires Distinct(u.ops) && |done| <= |u.ops| && forall i :: 0 <= i < |done| ==> done[i] == i
    requires Forward(d0, drive.disk, u.ops, |done|) && OnlyOps(d0, drive.disk, u.ops)
    requires db.status == Moving || db.status == FsDone
    modifies drive, db`status, db`stops
    ensures drive.stops >= old(drive.stops) && db.stops >= old(db.stops)
    ensures drive.stops + db.stops == old(drive.stops) + old(db.stops) + if out.Crashed? then 1 else 0
    ensures OnlyOps(d0, drive.disk, u.ops)
    ensures Kept(d0, drive.disk, u.ops) && NothingReplaced(d0, drive.disk, u.ops)
    ensures out.Finished? ==> out.status == Failed && db.status == Failed
    ensures out.Crashed? ==> out.undoing && (db.status == old(db.status) || db.status == Failed)
    ensures !out.stuck ==> forall i :: 0 <= i < |u.ops| ==> SameAt(d0, drive.disk, u.ops[i].src)
    ensures !out.stuck && drive.oneDevice ==> AllUnmoved(d0, drive.disk, u.ops)
    ensures out.Crashed? && Ready(d0, u.ops) && db.status != Failed ==>
              && (Recoverable(d0, c0, drive.disk, c0, db.status, u) <==> CanGoOn(d0, drive.disk, db.status, u))
              && (SafelyTo(drive.oneDevice, d0, u.ops, |done|) && db.status == Moving ==> CanGoOn(d0, drive.disk, db.status, u))
    ensures drive.faults >= old(drive.faults)
    ensures out.Finished? ==>
              NotBack(d0, drive.disk, u.ops, 0, |u.ops|) <= drive.faults - old(drive.faults) + Occupied(old(drive.disk), u.ops, 0, |done|)
  {
    hide OnlyOps, Backward, Forward, Distinct, Kept, NothingReplaced, NoneSlipped, AllPlaced, Recoverable;
    hide CanGoOn, Ready, SameAt, AllUnmoved, NotBack, Occupied;
    ghost var d1, f1 := drive.disk, drive.faults;
    out := Undo(drive, db, u, done, d0);
    ghost var safe := SafelyTo(drive.oneDevice, d0, u.ops, |done|);
    BackwardKeeps(d0, d1, drive.disk, u.ops, 0, |done|, !out.stuck, safe, drive.oneDevice || drive.faults == f1);
    BackwardEnds(d0, d1, drive.disk, u.ops, |done|, !out.stuck, safe, drive.oneDevice || drive.faults == f1);
    OnlyOpsAgain(d0, d1, drive.disk, u.ops);
    NotBackOfAll(d0, d1, drive.disk, u.ops, |done|, !out.stuck, safe, drive.oneDevice || drive.faults == f1);
    if Ready(d0, u.ops) && db.status != Failed {
      UndoCutShort(d0, c0, drive.disk, db.status, u, safe);
    }
  }

  /** Operations that were not done are as they were. */
  lemma NotBackOfAll(d0: Disk, d1: Disk, d: Disk, ops: seq<Op>, k: nat, all: bool, safe: bool, exact: bool)
    requires k <= |ops| && Backward(d0, d1, d, ops, 0, k, all, safe, exact)
    ensures NotBack(d0, d, ops, 0, |ops|) == NotBack(d0, d, ops, 0, k)
  {
    NotBackMore(d0, d, ops, 0, k);
  }

  /** A rollback that the machine's stop cut short. */
  lemma UndoCutShort(d0: Disk, c0: Catalogue, d: Disk, s: Status, u: Unit, safe: bool)
    requires Ready(d0, u.ops) && Kept(d0, d, u.ops) && (s == Moving || s == FsDone)
    requires safe ==> NoneSlipped(d0, d, u.ops)
    ensures Recoverable(d0, c0, d, c0, s, u) <==> CanGoOn(d0, d, s, u)
    ensures safe && s == Moving ==> CanGoOn(d0, d, s, u)
  {
    WholeIsPlaced(d0, d, u.ops);
    if safe {
      SoundIsPlaced(d0, d, u.ops);
    }
  }

  // ---------------------------------------------------------------------
  // Recovery after a crash
  // ---------------------------------------------------------------------

  /** op undone on disk d if its destination is in place. */
  function PutOneBack(d: Disk, op: Op): Disk {
    if op.dst in d then (d - {op.dst})[op.src := d[op.dst]] else d
  }

  /** Every operation whose destination is in place undone, newest first. */
  function PutAllBack(d: Disk, ops: seq<Op>): Disk
    decreases |ops|
  {
    if ops == [] then d
    else PutAllBack(PutOneBack(d, ops[|ops| - 1]), ops[..|ops| - 1])
  }

  function Sources(ops: seq<Op>): set<Path> {
    set op | op in ops :: op.src
  }

  predicate AllComplete(d: Disk, ops: seq<Op>) {
    forall op | op in ops :: op.dst in d
  }

  datatype Recovery = Recovery(disk: Disk, catalogue: Catalogue, status: Status)

  /** What an undisturbed recovery of a row found in status s does to the named entries and the catalogue. */
  function Recovered(d: Disk, c: Catalogue, s: Status, u: Unit): Recovery {
    if s == FsDone then Recovery(d, Applied(c, u.files, u.dest), Moved)
    else if AllComplete(d, u.ops) && u.ops != [] then
      Recovery(d - Sources(u.ops), Applied(c, u.files, u.dest), Moved)
    else Recovery(PutAllBack(d, u.ops), c, RolledBack)
  }

  lemma {:induction false} PutAllBackElsewhere(d: Disk, ops: seq<Op>, p: Path)
    requires forall i :: 0 <= i < |ops| ==> p != ops[i].src && p != ops[i].dst
    ensures SameAt(d, PutAllBack(d, ops), p)
    decreases |ops|
  {
    if ops != [] {
      PutAllBackElsewhere(PutOneBack(d, ops[|ops| - 1]), ops[..|ops| - 1], p);
    }
  }

  lemma {:induction false} PutAllBackAt(d: Disk, ops: seq<Op>)
    requires Distinct(ops)
    ensures forall i :: 0 <= i < |ops| ==>
              && (ops[i].dst in d ==>
                    ops[i].dst !in PutAllBack(d, ops) && ops[i].src in PutAllBack(d, ops)
                    && PutAllBack(d, ops)[ops[i].src] == d[ops[i].dst])
              && (ops[i].dst !in d ==> Untouched(d, PutAllBack(d, ops), ops[i].src, ops[i].dst))
    decreases |ops|
  {
    if ops != [] {
      var n := |ops| - 1;
      var d' := PutOneBack(d, ops[n]);
      PutAllBackAt(d', ops[..n]);
      assert forall i :: 0 <= i < n ==> ops[..n][i] == ops[i];
      PutAllBackElsewhere(d', ops[..n], ops[n].src);
      PutAllBackElsewhere(d', ops[..n], ops[n].dst);
      forall i | 0 <= i < n ensures Untouched(d, d', ops[i].src, ops[i].dst) {
      }
    }
  }

  /** Every file of the title is whole where the catalogue says it is. */
  ghost predicate Agrees(d0: Disk, c0: Catalogue, d: Disk, c: Catalogue, u: Unit) {
    || (c == Applied(c0, u.files, u.dest) && AllAtDst(d0, d, u.ops))
    || (c == c0 && AllAtSrc(d0, d, u.ops))
  }

  /**
   Exactly when recovery is right. A row still `moving` needs every existing destination to be whole
   and every source without one to be whole; a row already `fs_done` needs every destination whole.
   */
  lemma RecoveryIsRightIff(d0: Disk, c0: Catalogue, d: Disk, c: Catalogue, s: Status, u: Unit)
    requires Distinct(u.ops) && Ready(d0, u.ops) && u.ops != []
    requires u.dest != c0.library && CatalogueIs(c0, c, u)
    requires s == Moving || s == FsDone
    ensures var r := Recovered(d, c, s, u);
            Agrees(d0, c0, r.disk, r.catalogue, u) <==> Recoverable(d0, c0, d, c, s, u)
  {
    AppliedTwice(c0, u.files, u.dest);
    var ops := u.ops;
    if s == Moving {
      if AllComplete(d, ops) {
        RecoveryForward(d0, c0, d, c, u);
      } else {
        RecoveryBack(d0, c0, d, c, u);
      }
    }
  }

  lemma RecoveryForward(d0: Disk, c0: Catalogue, d: Disk, c: Catalogue, u: Unit)
    requires Distinct(u.ops) && Ready(d0, u.ops) && AllComplete(d, u.ops) && u.ops != []
    requires u.dest != c0.library && CatalogueIs(c0, c, u)
    ensures var r := Recovered(d, c, Moving, u);
            Agrees(d0, c0, r.disk, r.catalogue, u) <==> Recoverable(d0, c0, d, c, Moving, u)
  {
    AppliedTwice(c0, u.files, u.dest);
    var r := d - Sources(u.ops);
    assert forall i :: 0 <= i < |u.ops| ==> u.ops[i] in u.ops;
    forall i | 0 <= i < |u.ops|
      ensures AtDst(d0, r, u.ops[i]) <==> AtDst(d0, d, u.ops[i])
      ensures Placed(d0, d, u.ops[i]) <==> AtDst(d0, d, u.ops[i])
    {
      assert u.ops[i].dst in d && u.ops[i].dst !in Sources(u.ops);
    }
    assert AllAtDst(d0, r, u.ops) <==> AllAtDst(d0, d, u.ops);
    assert AllPlaced(d0, d, u.ops) <==> AllAtDst(d0, d, u.ops);
  }

  lemma RecoveryBack(d0: Disk, c0: Catalogue, d: Disk, c: Catalogue, u: Unit)
    requires Distinct(u.ops) && Ready(d0, u.ops) && u.ops != [] && !AllComplete(d, u.ops)
    requires u.dest != c0.library && CatalogueIs(c0, c, u)
    ensures var r := Recovered(d, c, Moving, u);
            Agrees(d0, c0, r.disk, r.catalogue, u) <==> Recoverable(d0, c0, d, c, Moving, u)
  {
    var r := PutAllBack(d, u.ops);
    PutAllBackAt(d, u.ops);
    forall i | 0 <= i < |u.ops|
      ensures AtSrc(d0, r, u.ops[i]) <==> Placed(d0, d, u.ops[i])
      ensures u.ops[i].dst !in r
    {
    }
    assert AllAtSrc(d0, r, u.ops) <==> AllPlaced(d0, d, u.ops);
    var op :| op in u.ops && op.dst !in d;
    var k :| 0 <= k < |u.ops| && u.ops[k] == op;
    assert !AtDst(d0, d, u.ops[k]) && !AtDst(d0, r, u.ops[k]);
  }

  /** The first loop of recoverItem: clear unfinished copies and see which destinations are in place. */
  method Survey(drive: Drive, u: Unit) returns (complete: seq<bool>, all: bool, stopped: bool)
    requires Distinct(u.ops)
    modifies drive
    ensures drive.stops == old(drive.stops) + if stopped then 1 else 0
    ensures SameEntries(old(drive.disk), drive.disk)
    ensures !stopped ==> |complete| == |u.ops| && forall i :: 0 <= i < |u.ops| && complete[i] ==> u.ops[i].dst in drive.disk
    ensures !stopped ==> (all <==> false !in complete)
    ensures !stopped && drive.faults == old(drive.faults) ==>
              NoPartials(drive.disk, u) && forall i :: 0 <= i < |u.ops| ==> (complete[i] <==> u.ops[i].dst in drive.disk)
    ensures drive.faults >= old(drive.faults)
    ensures !stopped ==> Missed(drive.disk, u.ops, complete, 0) <= drive.faults - old(drive.faults)
  {
    hide Missed;
    complete, all, stopped := [], true, false;
    NoneMissed(drive.disk, u.ops);
    for i := 0 to |u.ops|
      invariant SameEntries(old(drive.disk), drive.disk)
      invariant |complete| == i && forall j :: 0 <= j < i && complete[j] ==> u.ops[j].dst in drive.disk
      invariant all <==> false !in complete
      invariant drive.faults == old(drive.faults) ==>
                  forall j :: 0 <= j < i ==> TmpName(u.ops[j].dst, u.row, j) !in drive.disk && (complete[j] <==> u.ops[j].dst in drive.disk)
      invariant drive.stops == old(drive.stops) && drive.faults >= old(drive.faults) && Missed(drive.disk, u.ops, complete, 0) <= drive.faults - old(drive.faults)
    {
      ghost var before := drive.disk;
      var cleared := drive.RemoveAll(TmpName(u.ops[i].dst, u.row, i));
      if cleared.Crash? {
        return complete, all, true;
      }
      var there := drive.Lstat(u.ops[i].dst);
      MissedNext(before, drive.disk, u.ops, complete, 0, there.Exists?);
      complete := complete + [there.Exists?];
      all := all && there.Exists?;
    }
  }

  lemma NoneMissed(d: Disk, ops: seq<Op>)
    ensures Missed(d, ops, [], 0) == 0
  {
  }

  /** Removes what is left of every source; everything else stays. */
  method DropSources(drive: Drive, u: Unit) returns (stopped: bool)
    requires Distinct(u.ops)
    modifies drive
    ensures drive.stops == old(drive.stops) + if stopped then 1 else 0
    ensures forall p :: p !in Sources(u.ops) ==> SameAt(old(drive.disk), drive.disk, p)
    ensures !stopped && drive.faults == old(drive.faults) ==> forall i :: 0 <= i < |u.ops| ==> u.ops[i].src !in drive.disk
    ensures drive.faults >= old(drive.faults)
  {
    for i := 0 to |u.ops|
      invariant SameExcept(old(drive.disk), drive.disk, Sources(u.ops))
      invariant drive.faults == old(drive.faults) ==> forall j :: 0 <= j < i ==> u.ops[j].src !in drive.disk
      invariant drive.faults >= old(drive.faults) && drive.stops == old(drive.stops)
    {
      var op := u.ops[i];
      assert op in u.ops;
      var there := drive.Lstat(op.src);
      if there.Exists? {
        var removed := drive.RemoveAll(op.src);
        if removed.Crash? {
          return true;
        }
      }
    }
    stopped := false;
  }

  /** The content of op is somewhere whole. */
  ghost predicate Somewhere(d0: Disk, d: Disk, op: Op) {
    AtSrc(d0, d, op) || AtDst(d0, d, op)
  }

  /** Removing the leftover source of a placed operation and moving its destination back, at any instant. */
  lemma PutBackStep(d0: Disk, d: Disk, d1: Disk, d2: Disk, op: Op)
    requires op.src != op.dst && Placed(d0, d, op) && op.dst in d
    requires SameAt(d, d1, op.dst)
    requires Untouched(d1, d2, op.src, op.dst) || Committed(d1, d2, op.dst, op.src)
    ensures Placed(d0, d1, op) && Somewhere(d0, d2, op)
    ensures Committed(d1, d2, op.dst, op.src) ==> AtSrc(d0, d2, op)
    ensures Untouched(d1, d2, op.src, op.dst) || op.dst !in d2 || MovesOnePiece(d0, op) ==> Placed(d0, d2, op)
  {
  }

  /** One put-back of recoverItem: drop the leftover source, then move the destination back. */
  method PutBackOne(drive: Drive, u: Unit, i: nat, ghost d0: Disk) returns (r: BackResult)
    requires Distinct(u.ops) && i < |u.ops| && u.ops[i].dst in drive.disk
    modifies drive
    ensures drive.stops == old(drive.stops) + if r.BackStopped? then 1 else 0
    ensures SameExcept(old(drive.disk), drive.disk, {u.ops[i].src, u.ops[i].dst, TmpName(u.ops[i].src, u.row + "-back", i)})
    ensures drive.faults == old(drive.faults) ==> !r.NotAllBack?
    ensures r.PutBack? ==> u.ops[i].src in drive.disk && drive.disk[u.ops[i].src] == old(drive.disk)[u.ops[i].dst]
    ensures drive.faults == old(drive.faults) && r.PutBack? ==> u.ops[i].dst !in drive.disk
    ensures Placed(d0, old(drive.disk), u.ops[i]) ==> Somewhere(d0, drive.disk, u.ops[i])
    ensures Placed(d0, old(drive.disk), u.ops[i]) && (drive.oneDevice || MovesOnePiece(d0, u.ops[i])) ==>
              Placed(d0, drive.disk, u.ops[i])
    ensures drive.faults >= old(drive.faults)
  {
    var op := u.ops[i];
    ghost var d := drive.disk;
    var tmp := TmpName(op.src, u.row + "-back", i);
    var there := drive.Lstat(op.src);
    if there.Exists? {
      var removed := drive.RemoveAll(op.src);
      if removed.Crash? {
        assert SameExcept(d, drive.disk, {op.src, op.dst, tmp});
        return BackStopped;
      }
    }
    ghost var d1 := drive.disk;
    var moved := drive.MoveEntry(op.dst, op.src, tmp);
    assert SameExcept(d, drive.disk, {op.src, op.dst, tmp});
    if Placed(d0, d, op) {
      PutBackStep(d0, d, d1, drive.disk, op);
    }
    r := if moved.Stopped? then BackStopped else if moved.Done? || moved.Left? then PutBack else NotAllBack;
  }

  /** op as an undisturbed recovery leaves it, given whether its destination was in place on d. */
  ghost predicate PutBackOn(d: Disk, d': Disk, op: Op, complete: bool) {
    if complete then
      op.dst in d && op.dst !in d' && op.src in d' && d'[op.src] == d[op.dst]
    else Untouched(d, d', op.src, op.dst)
  }

  /** What was at the destination is at the source. */
  ghost predicate IsBack(d: Disk, d': Disk, op: Op) {
    op.dst in d && op.src in d' && d'[op.src] == d[op.dst]
  }

  /** How op stands once the put-back loop has passed it; `back` says that every put-back so far succeeded. */
  ghost predicate PassedBack(d0: Disk, d: Disk, d': Disk, op: Op, complete: bool, back: bool, exact: bool, safe: bool) {
    && (back && complete ==> IsBack(d, d', op))
    && (exact ==> PutBackOn(d, d', op, complete))
    && (Placed(d0, d, op) ==> Somewhere(d0, d', op) && (safe ==> Placed(d0, d', op)))
  }

  /** The put-back loop started from d and has passed the operations from i on. */
  ghost predicate PuttingBack(d0: Disk, d: Disk, d': Disk, ops: seq<Op>, complete: seq<bool>, i: nat, back: bool, exact: bool,
                              safe: bool)
    requires |complete| == |ops|
  {
    && (forall j :: 0 <= j < i && j < |ops| ==> Untouched(d, d', ops[j].src, ops[j].dst))
    && (forall j :: i <= j < |ops| ==> PassedBack(d0, d, d', ops[j], complete[j], back, exact, safe))
    && OnlyOps(d, d', ops)
  }

  lemma PuttingBackStep(d0: Disk, d: Disk, d1: Disk, d2: Disk, ops: seq<Op>, complete: seq<bool>, i: nat, tmp: Path,
                        back: bool, back': bool, exact: bool, exact': bool, safe: bool)
    requires Distinct(ops) && |complete| == |ops| && i < |ops| && tmp.Partial?
    requires PuttingBack(d0, d, d1, ops, complete, i + 1, back, exact, safe)
    requires SameExcept(d1, d2, {ops[i].src, ops[i].dst, tmp})
    requires PassedBack(d0, d, d2, ops[i], complete[i], back', exact', safe) && (back' ==> back) && (exact' ==> exact)
    ensures PuttingBack(d0, d, d2, ops, complete, i, back', exact', safe)
  {
    hide PassedBack, Untouched, SameExcept, Distinct, OnlyOps;
    OtherOps(d1, d2, ops, i, tmp);
    OnlyOpsAgain(d, d1, d2, ops);
    forall j | 0 <= j < i ensures Untouched(d, d2, ops[j].src, ops[j].dst) {
      UntouchedAgain(d, d1, d2, ops[j]);
    }
    forall j | i + 1 <= j < |ops| ensures PassedBack(d0, d, d2, ops[j], complete[j], back', exact', safe) {
      assert PassedBack(d0, d, d1, ops[j], complete[j], back, exact, safe);
      StaysPassed(d0, d, d1, d2, ops[j], complete[j], back, back', exact, exact', safe);
    }
  }

  lemma UntouchedAgain(d: Disk, d1: Disk, d2: Disk, op: Op)
    requires Untouched(d, d1, op.src, op.dst) && Untouched(d1, d2, op.src, op.dst)
    ensures Untouched(d, d2, op.src, op.dst)
  {
  }

  lemma StaysPassed(d0: Disk, d: Disk, d1: Disk, d2: Disk, op: Op, complete: bool, back: bool, back': bool, exact: bool, exact': bool,
                    safe: bool)
    requires PassedBack(d0, d, d1, op, complete, back, exact, safe) && Untouched(d1, d2, op.src, op.dst)
    requires (back' ==> back) && (exact' ==> exact)
    ensures PassedBack(d0, d, d2, op, complete, back', exact', safe)
  {
  }

  lemma PuttingBackSkips(d0: Disk, d: Disk, d': Disk, ops: seq<Op>, complete: seq<bool>, i: nat, back: bool, exact: bool,
                         safe: bool)
    requires |complete| == |ops| && i < |ops| && !complete[i]
    requires PuttingBack(d0, d, d', ops, complete, i + 1, back, exact, safe)
    ensures PuttingBack(d0, d, d', ops, complete, i, back, exact, safe)
  {
    assert PassedBack(d0, d, d', ops[i], complete[i], back, exact, safe);
  }

  lemma PuttingBackStops(d0: Disk, d: Disk, d': Disk, ops: seq<Op>, complete: seq<bool>, i: nat, safe: bool)
    requires |complete| == |ops| && i <= |ops| && PuttingBack(d0, d, d', ops, complete, i, false, false, safe)
    ensures PuttingBack(d0, d, d', ops, complete, 0, false, false, safe)
  {
  }

  lemma NothingPutBack(d0: Disk, d: Disk, ops: seq<Op>, complete: seq<bool>, safe: bool)
    requires |complete| == |ops|
    ensures PuttingBack(d0, d, d, ops, complete, |ops|, true, true, safe)
  {
  }

  /** The loop has not come to op i yet. */
  lemma StillComplete(d0: Disk, d: Disk, d1: Disk, ops: seq<Op>, complete: seq<bool>, i: nat, back: bool, exact: bool, safe: bool)
    requires |complete| == |ops| && i < |ops| && PuttingBack(d0, d, d1, ops, complete, i + 1, back, exact, safe)
    ensures Untouched(d, d1, ops[i].src, ops[i].dst)
  {
  }

  /** Copies made while putting back never collide with copies made while moving. */
  lemma BackCopiesApart(d: Disk, d': Disk, u: Unit, i: nat)
    requires Distinct(u.ops) && i < |u.ops|
    requires SameExcept(d, d', {u.ops[i].src, u.ops[i].dst, TmpName(u.ops[i].src, u.row + "-back", i)})
    ensures NoPartials(d, u) ==> NoPartials(d', u)
  {
    assert |u.row + "-back"| == |u.row| + 5;
    if NoPartials(d, u) {
      forall j | 0 <= j < |u.ops| ensures TmpName(u.ops[j].dst, u.row, j) !in d' {
        assert TmpName(u.ops[j].dst, u.row, j) !in d;
      }
    }
  }

  /** How many complete operations from i on are not back. */
  ghost function NotPutBack(d: Disk, d': Disk, ops: seq<Op>, complete: seq<bool>, i: nat): nat
    requires i <= |ops| == |complete|
    decreases |ops| - i
  {
    if i == |ops| then 0 else NotPutBack(d, d', ops, complete, i + 1) + if complete[i] && !IsBack(d, d', ops[i]) then 1 else 0
  }

  lemma {:induction false} NotPutBackSame(d: Disk, d1: Disk, d2: Disk, ops: seq<Op>, complete: seq<bool>, i: nat)
    requires i <= |ops| == |complete| && forall j :: i <= j < |ops| ==> Untouched(d1, d2, ops[j].src, ops[j].dst)
    ensures NotPutBack(d, d2, ops, complete, i) == NotPutBack(d, d1, ops, complete, i)
    decreases |ops| - i
  {
    if i < |ops| {
      NotPutBackSame(d, d1, d2, ops, complete, i + 1);
    }
  }

  lemma NotPutBackStep(d: Disk, d1: Disk, d2: Disk, ops: seq<Op>, complete: seq<bool>, i: nat, tmp: Path, faults: nat, faults': nat)
    requires Distinct(ops) && |complete| == |ops| && i < |ops| && tmp.Partial?
    requires SameExcept(d1, d2, {ops[i].src, ops[i].dst, tmp})
    requires NotPutBack(d, d1, ops, complete, i + 1) <= faults <= faults' && (IsBack(d, d2, ops[i]) || faults' > faults)
    ensures NotPutBack(d, d2, ops, complete, i) <= faults'
  {
    OtherOps(d1, d2, ops, i, tmp);
    NotPutBackSame(d, d1, d2, ops, complete, i + 1);
  }

  lemma NotPutBackSkip(d: Disk, d1: Disk, ops: seq<Op>, complete: seq<bool>, i: nat)
    requires i <= |ops| == |complete|
    ensures i == |ops| ==> NotPutBack(d, d1, ops, complete, i) == 0
    ensures i < |ops| && !complete[i] ==> NotPutBack(d, d1, ops, complete, i) == NotPutBack(d, d1, ops, complete, i + 1)
  {
  }

  /** How many operations from i on have something at their destinations that was not seen. */
  ghost function Missed(d: Disk, ops: seq<Op>, complete: seq<bool>, i: nat): nat
    requires i <= |complete| <= |ops|
    decreases |complete| - i
  {
    if i == |complete| then 0 else Missed(d, ops, complete, i + 1) + if ops[i].dst in d && !complete[i] then 1 else 0
  }

  /** How many have something at their destinations, on d, that is not back at their sources on d'. */
  ghost function NotUndone(d: Disk, d': Disk, ops: seq<Op>, i: nat): nat
    requires i <= |ops|
    decreases |ops| - i
  {
    if i == |ops| then 0 else NotUndone(d, d', ops, i + 1) + if ops[i].dst in d && !IsBack(d, d', ops[i]) then 1 else 0
  }

  lemma {:induction false} MissedNext(d: Disk, d': Disk, ops: seq<Op>, complete: seq<bool>, i: nat, seen: bool)
    requires i <= |complete| < |ops| && forall j :: i <= j < |complete| ==> SameAt(d, d', ops[j].dst)
    ensures Missed(d', ops, complete + [seen], i)
            == Missed(d, ops, complete, i) + if ops[|complete|].dst in d' && !seen then 1 else 0
    decreases |complete| - i
  {
    if i < |complete| {
      MissedNext(d, d', ops, complete, i + 1, seen);
    }
  }

  /** What is not undone was not seen, or could not be put back. */
  lemma {:induction false} UndoneOrNot(d: Disk, d1: Disk, d': Disk, ops: seq<Op>, complete: seq<bool>, i: nat)
    requires i <= |ops| == |complete| && forall j :: i <= j < |ops| ==> SameAt(d, d1, ops[j].dst)
    ensures NotUndone(d, d', ops, i) <= NotPutBack(d1, d', ops, complete, i) + Missed(d1, ops, complete, i)
    decreases |ops| - i
  {
    if i < |ops| {
      UndoneOrNot(d, d1, d', ops, complete, i + 1);
    }
  }

  /** The last loop of recoverItem: put every complete operation back, newest first. */
  method PutBackComplete(drive: Drive, u: Unit, complete: seq<bool>, ghost d0: Disk) returns (r: BackResult)
    requires Distinct(u.ops) && |complete| == |u.ops|
    requires forall i :: 0 <= i < |u.ops| && complete[i] ==> u.ops[i].dst in drive.disk
    modifies drive
    ensures drive.stops == old(drive.stops) + if r.BackStopped? then 1 else 0
    ensures PuttingBack(d0, old(drive.disk), drive.disk, u.ops, complete, 0,
                        r.PutBack?, r.PutBack? && drive.faults == old(drive.faults),
                        Safely(drive.oneDevice, d0, u.ops, complete))
    ensures drive.faults == old(drive.faults) ==> !r.NotAllBack?
    ensures !r.BackStopped? ==>
              NotPutBack(old(drive.disk), drive.disk, u.ops, complete, 0) <= drive.faults - old(drive.faults)
    ensures NoPartials(old(drive.disk), u) ==> NoPartials(drive.disk, u)
    ensures drive.faults >= old(drive.faults)
  {
    hide PuttingBack, NoPartials, Distinct, OnlyOps, NotPutBack;
    NotPutBackSkip(drive.disk, drive.disk, u.ops, complete, |u.ops|);
    r := PutBack;
    ghost var d, f, safe := drive.disk, drive.faults, Safely(drive.oneDevice, d0, u.ops, complete);
    NothingPutBack(d0, d, u.ops, complete, safe);
    for i := |u.ops| downto 0
      invariant PuttingBack(d0, d, drive.disk, u.ops, complete, i, r.PutBack?, drive.faults == f, safe)
      invariant drive.faults == f ==> r.PutBack?
      invariant !r.BackStopped? && drive.faults >= f && drive.stops == old(drive.stops)
      invariant NotPutBack(d, drive.disk, u.ops, complete, i) <= drive.faults - f
      invariant NoPartials(d, u) ==> NoPartials(drive.disk, u)
    {
      if !complete[i] {
        NotPutBackSkip(d, drive.disk, u.ops, complete, i);
        PuttingBackSkips(d0, d, drive.disk, u.ops, complete, i, r.PutBack?, drive.faults == f, safe);
        continue;
      }
      ghost var before, exact, g := drive.disk, drive.faults == f, drive.faults - f;
      StillComplete(d0, d, before, u.ops, complete, i, r.PutBack?, exact, safe);
      assert safe ==> drive.oneDevice || MovesOnePiece(d0, u.ops[i]);
      var back := PutBackOne(drive, u, i, d0);
      ghost var tmp := TmpName(u.ops[i].src, u.row + "-back", i);
      BackCopiesApart(before, drive.disk, u, i);
      PuttingBackStep(d0, d, before, drive.disk, u.ops, complete, i, tmp, r.PutBack?, r.PutBack? && back.PutBack?,
                      exact, back.PutBack? && drive.faults == f, safe);
      if back.BackStopped? {
        PuttingBackStops(d0, d, drive.disk, u.ops, complete, i, safe);
        return BackStopped;
      }
      NotPutBackStep(d, before, drive.disk, u.ops, complete, i, tmp, g, drive.faults - f);
      if back.NotAllBack? {
        r := NotAllBack;
      }
    }
  }

  /** The loop that puts operations back computes PutAllBack. */
  lemma PutBackIsRecovered(d0: Disk, d1: Disk, d2: Disk, ops: seq<Op>, complete: seq<bool>, safe: bool)
    requires Distinct(ops) && |complete| == |ops|
    requires forall i :: 0 <= i < |ops| ==> (complete[i] <==> ops[i].dst in d1)
    requires PuttingBack(d0, d1, d2, ops, complete, 0, true, true, safe)
    ensures SameEntries(PutAllBack(d1, ops), d2)
  {
    var r := PutAllBack(d1, ops);
    PutAllBackAt(d1, ops);
    forall p: Path | p.Entry? ensures SameAt(r, d2, p) {
      if i :| 0 <= i < |ops| && (p == ops[i].src || p == ops[i].dst) {
        assert PassedBack(d0, d1, d2, ops[i], complete[i], true, true, safe);
      } else {
        PutAllBackElsewhere(d1, ops, p);
      }
    }
  }

  /** The half of recoverItem that finishes a move whose destinations are all in place. */
  method FinishMove(drive: Drive, db: Database, u: Unit, ghost d0: Disk, ghost c0: Catalogue) returns (out: Outcome)
    requires Distinct(u.ops) && u.dest != ""
    modifies drive, db`catalogue, db`faults, db`stops
    ensures drive.stops >= old(drive.stops) && db.stops >= old(db.stops)
    ensures drive.stops + db.stops == old(drive.stops) + old(db.stops) + if out.Crashed? then 1 else 0
    ensures forall p :: p !in Sources(u.ops) ==> SameAt(old(drive.disk), drive.disk, p)
    ensures out.Finished? && drive.faults == old(drive.faults) ==> forall i :: 0 <= i < |u.ops| ==> u.ops[i].src !in drive.disk
    ensures out.Finished? && db.faults == old(db.faults) ==>
              out == Finished(Moved, false) && db.catalogue == Applied(old(db.catalogue), u.files, u.dest)
    ensures out.Crashed? ==> !out.undoing
    ensures out.Finished? ==> !out.stuck && (out.status == Moved || out.status == Failed)
    ensures CatalogueIs(c0, old(db.catalogue), u) ==> CatalogueIs(c0, db.catalogue, u)
    ensures AllAtDst(d0, old(drive.disk), u.ops) ==> AllAtDst(d0, drive.disk, u.ops)
    ensures OnlyOps(old(drive.disk), drive.disk, u.ops)
    ensures NoPartials(old(drive.disk), u) ==> NoPartials(drive.disk, u)
    ensures drive.faults >= old(drive.faults) && db.faults >= old(db.faults)
  {
    ghost var d := drive.disk;
    var stopped := DropSources(drive, u);
    forall p: Path | p.Entry? && forall i :: 0 <= i < |u.ops| ==> p != u.ops[i].src && p != u.ops[i].dst
      ensures SameAt(d, drive.disk, p)
    {
      assert p !in Sources(u.ops);
    }
    forall i | 0 <= i < |u.ops| ensures SameAt(d, drive.disk, TmpName(u.ops[i].dst, u.row, i)) {
      assert TmpName(u.ops[i].dst, u.row, i) !in Sources(u.ops);
    }
    if AllAtDst(d0, d, u.ops) {
      forall i | 0 <= i < |u.ops| ensures AtDst(d0, drive.disk, u.ops[i]) {
        assert u.ops[i].dst !in Sources(u.ops);
      }
    }
    if stopped {
      return Crashed(false, false);
    }
    AppliedTwice(c0, u.files, u.dest);
    var applied := db.ApplyMove(u.files, u.dest);
    out := match applied
      case Ok => Finished(Moved, false)
      case Crash => Crashed(false, false)
      case _ => Finished(Failed, false);
  }

  lemma SurveyKeeps(d0: Disk, c0: Catalogue, d: Disk, d1: Disk, c: Catalogue, u: Unit)
    requires Distinct(u.ops) && SameEntries(d, d1) && Recoverable(d0, c0, d, c, Moving, u)
    ensures Recoverable(d0, c0, d1, c, Moving, u) && Kept(d0, d1, u.ops)
  {
    forall i | 0 <= i < |u.ops|
      ensures Placed(d0, d1, u.ops[i]) && (AtDst(d0, d, u.ops[i]) ==> AtDst(d0, d1, u.ops[i]))
    {
      assert Placed(d0, d, u.ops[i]);
    }
  }

  /** With every destination in place a placed title is wholly there, and then stays placed. */
  lemma PlacedIsThere(d0: Disk, d1: Disk, d2: Disk, ops: seq<Op>)
    requires AllPlaced(d0, d1, ops) && forall i :: 0 <= i < |ops| ==> ops[i].dst in d1
    ensures AllAtDst(d0, d1, ops)
    ensures AllAtDst(d0, d2, ops) ==> AllPlaced(d0, d2, ops) && Kept(d0, d2, ops)
  {
    forall i | 0 <= i < |ops| ensures AtDst(d0, d1, ops[i]) {
      assert Placed(d0, d1, ops[i]);
    }
  }

  lemma ClearedIsRecovered(d: Disk, d1: Disk, d2: Disk, ops: seq<Op>)
    requires Distinct(ops) && SameEntries(d, d1)
    requires forall p :: p !in Sources(ops) ==> SameAt(d1, d2, p)
    requires forall i :: 0 <= i < |ops| ==> ops[i].src !in d2
    ensures SameEntries(d - Sources(ops), d2)
  {
    forall p: Path | p.Entry? ensures SameAt(d - Sources(ops), d2, p) {
      if p in Sources(ops) {
        var op :| op in ops && op.src == p;
      } else {
        assert SameAt(d1, d2, p);
      }
    }
  }

  /** The half of recoverItem that puts back what was in place. */
  method UndoItem(drive: Drive, u: Unit, complete: seq<bool>, ghost d0: Disk) returns (out: Outcome)
    requires Distinct(u.ops) && |complete| == |u.ops|
    requires forall i :: 0 <= i < |u.ops| && complete[i] ==> u.ops[i].dst in drive.disk
    modifies drive
    ensures drive.stops == old(drive.stops) + if out.Crashed? then 1 else 0
    ensures OnlyOps(old(drive.disk), drive.disk, u.ops)
    ensures out.Finished? && drive.faults == old(drive.faults) ==>
              && out == Finished(RolledBack, false)
              && (NoPartials(old(drive.disk), u) ==> NoPartials(drive.disk, u))
              && ((forall i :: 0 <= i < |u.ops| ==> (complete[i] <==> u.ops[i].dst in old(drive.disk))) ==>
                    SameEntries(PutAllBack(old(drive.disk), u.ops), drive.disk))
    ensures out.Crashed? ==> out.undoing
    ensures out.Finished? ==> out.status == RolledBack || (out.status == Failed && drive.faults > old(drive.faults))
    ensures out.Finished? && out.status == RolledBack ==>
              forall i :: 0 <= i < |u.ops| && complete[i] ==> IsBack(old(drive.disk), drive.disk, u.ops[i])
    ensures AllPlaced(d0, old(drive.disk), u.ops) ==>
              && Kept(d0, drive.disk, u.ops)
              && (Safely(drive.oneDevice, d0, u.ops, complete) ==> AllPlaced(d0, drive.disk, u.ops))
    ensures drive.faults >= old(drive.faults)
    ensures out.Finished? ==> out.stuck == (out.status == Failed)
    ensures out.Finished? ==> NotPutBack(old(drive.disk), drive.disk, u.ops, complete, 0) <= drive.faults - old(drive.faults)
  {
    hide NotPutBack;
    ghost var d := drive.disk;
    var back := PutBackComplete(drive, u, complete, d0);
    if AllPlaced(d0, d, u.ops) {
      forall i | 0 <= i < |u.ops|
        ensures Somewhere(d0, drive.disk, u.ops[i])
        ensures Safely(drive.oneDevice, d0, u.ops, complete) ==> Placed(d0, drive.disk, u.ops[i])
      {
        assert Placed(d0, d, u.ops[i]);
      }
    }
    if back.PutBack? && drive.faults == old(drive.faults)
       && forall i :: 0 <= i < |u.ops| ==> (complete[i] <==> u.ops[i].dst in d) {
      PutBackIsRecovered(d0, d, drive.disk, u.ops, complete, Safely(drive.oneDevice, d0, u.ops, complete));
    }
    out := match back
      case PutBack => Finished(RolledBack, false)
      case NotAllBack => Finished(Failed, true)
      case BackStopped => Crashed(true, true);
  }

  lemma PutAllBackSame(d: Disk, d1: Disk, ops: seq<Op>)
    requires Distinct(ops) && SameEntries(d, d1)
    ensures SameEntries(PutAllBack(d, ops), PutAllBack(d1, ops))
  {
    PutAllBackAt(d, ops);
    PutAllBackAt(d1, ops);
    forall p: Path | p.Entry? ensures SameAt(PutAllBack(d, ops), PutAllBack(d1, ops), p) {
      if i :| 0 <= i < |ops| && (p == ops[i].src || p == ops[i].dst) {
        assert SameAt(d, d1, ops[i].src) && SameAt(d, d1, ops[i].dst);
      } else {
        PutAllBackElsewhere(d, ops, p);
        PutAllBackElsewhere(d1, ops, p);
      }
    }
  }

  /** Nothing is lost in any state a crash may leave behind. */
  lemma RecoverableKeeps(d0: Disk, c0: Catalogue, d: Disk, c: Catalogue, s: Status, u: Unit)
    requires Recoverable(d0, c0, d, c, s, u)
    ensures Kept(d0, d, u.ops)
  {
    forall i | 0 <= i < |u.ops| && u.ops[i].src in d0 ensures Somewhere(d0, d, u.ops[i]) {
    }
  }

  /**
   recoverItem. Undisturbed, it does exactly what Recovered says. Disturbed or not, it loses nothing
   it was given in a recoverable state. Stopped again without a fault, it leaves a recoverable state
   exactly if CanGoOn holds of it, and it does while finishing a move and, on one device or of a planned
   title, while undoing it.
   */
  method RecoverItem(drive: Drive, db: Database, u: Unit, ghost d0: Disk, ghost c0: Catalogue) returns (out: Outcome)
    requires Distinct(u.ops) && u.dest != "" && (db.status == Moving || db.status == FsDone)
    modifies drive, db`catalogue, db`faults, db`stops
    ensures drive.stops >= old(drive.stops) && db.stops >= old(db.stops)
    ensures drive.stops + db.stops == old(drive.stops) + old(db.stops) + if out.Crashed? then 1 else 0
    ensures out.Finished? && drive.faults == old(drive.faults) && db.faults == old(db.faults) ==>
              && RecoveredTo(old(drive.disk), old(db.catalogue), db.status, u, drive.disk, db.catalogue, out.status)
              && (db.status == Moving ==> NoPartials(drive.disk, u))
    ensures Recoverable(d0, c0, old(drive.disk), old(db.catalogue), db.status, u) ==> Kept(d0, drive.disk, u.ops)
    ensures Ready(d0, u.ops) && Recoverable(d0, c0, old(drive.disk), old(db.catalogue), db.status, u)
            && out.Crashed? && drive.faults == old(drive.faults) ==>
              && (Recoverable(d0, c0, drive.disk, db.catalogue, db.status, u) <==> CanGoOn(d0, drive.disk, db.status, u))
              && (!out.undoing || drive.oneDevice || Planned(d0, u.ops) ==> CanGoOn(d0, drive.disk, db.status, u))
    ensures out.Crashed? && out.undoing ==> db.status == Moving
    ensures OnlyOps(old(drive.disk), drive.disk, u.ops)
    ensures db.status == FsDone ==> drive.disk == old(drive.disk)
    ensures drive.faults >= old(drive.faults) && db.faults >= old(db.faults)
    ensures out.Finished? ==> out.status == Moved || (out.status == RolledBack && db.status == Moving) || out.status == Failed
    ensures out.Finished? && out.status != Moved ==>
              if db.status == Moving && (out.stuck || out.status == RolledBack) then
                NotUndone(old(drive.disk), drive.disk, u.ops, 0) <= drive.faults - old(drive.faults)
              else db.faults > old(db.faults)
  {
    hide NotUndone;
    ghost var d, c := drive.disk, db.catalogue;
    ghost var sound := Recoverable(d0, c0, d, c, db.status, u);
    if sound {
      RecoverableKeeps(d0, c0, d, c, db.status, u);
      AppliedTwice(c0, u.files, u.dest);
    }
    if db.status == FsDone {
      var applied := db.ApplyMove(u.files, u.dest);
      out := match applied
        case Ok => Finished(Moved, false)
        case Crash => Crashed(false, false)
        case _ => Finished(Failed, false);
      return;
    }
    out := RecoverMoving(drive, db, u, d0, c0);
  }

  /** d', c' and s' are what recovery of a row in status s computes from d and c. */
  ghost predicate RecoveredTo(d: Disk, c: Catalogue, s: Status, u: Unit, d': Disk, c': Catalogue, s': Status) {
    var r := Recovered(d, c, s, u);
    SameEntries(r.disk, d') && c' == r.catalogue && s' == r.status
  }

  /** Only named entries matter to recovery. */
  lemma RecoveredSame(d: Disk, d1: Disk, c: Catalogue, u: Unit)
    requires Distinct(u.ops) && SameEntries(d, d1)
    ensures var r, r1 := Recovered(d, c, Moving, u), Recovered(d1, c, Moving, u);
            SameEntries(r.disk, r1.disk) && r.catalogue == r1.catalogue && r.status == r1.status
  {
    PutAllBackSame(d, d1, u.ops);
    forall op | op in u.ops ensures op.dst in d <==> op.dst in d1 {
    }
  }

  /** FinishMove on a row still `moving`, every destination being in place. */
  method FinishItem(drive: Drive, db: Database, u: Unit, ghost d0: Disk, ghost c0: Catalogue) returns (out: Outcome)
    requires Distinct(u.ops) && u.dest != "" && u.ops != []
    requires forall i :: 0 <= i < |u.ops| ==> u.ops[i].dst in drive.disk
    modifies drive, db`catalogue, db`faults, db`stops
    ensures drive.stops >= old(drive.stops) && db.stops >= old(db.stops)
    ensures drive.stops + db.stops == old(drive.stops) + old(db.stops) + if out.Crashed? then 1 else 0
    ensures out.Finished? && drive.faults == old(drive.faults) && db.faults == old(db.faults) ==>
              && RecoveredTo(old(drive.disk), old(db.catalogue), Moving, u, drive.disk, db.catalogue, out.status)
              && (NoPartials(old(drive.disk), u) ==> NoPartials(drive.disk, u))
    ensures Recoverable(d0, c0, old(drive.disk), old(db.catalogue), Moving, u) ==>
              Kept(d0, drive.disk, u.ops) && Recoverable(d0, c0, drive.disk, db.catalogue, Moving, u)
    ensures OnlyOps(old(drive.disk), drive.disk, u.ops)
    ensures out.Crashed? ==> !out.undoing
    ensures out.Finished? ==> !out.stuck && (out.status == Moved || (out.status == Failed && db.faults > old(db.faults)))
    ensures drive.faults >= old(drive.faults) && db.faults >= old(db.faults)
  {
    hide PutAllBack, Kept, AllPlaced, OnlyOps, NoPartials, Distinct;
    ghost var d, c := drive.disk, db.catalogue;
    out := FinishMove(drive, db, u, d0, c0);
    if Recoverable(d0, c0, d, c, Moving, u) {
      PlacedIsThere(d0, d, drive.disk, u.ops);
    }
    if out.Finished? && drive.faults == old(drive.faults) {
      ClearedIsRecovered(d, d, drive.disk, u.ops);
    }
  }

  /** Where a destination is missing the catalogue is still as it was. */
  lemma CatalogueUntouched(d0: Disk, c0: Catalogue, d: Disk, c: Catalogue, u: Unit)
    requires Recoverable(d0, c0, d, c, Moving, u)
    ensures u.ops == [] || (exists i :: 0 <= i < |u.ops| && u.ops[i].dst !in d) ==> c == c0
  {
    forall i | 0 <= i < |u.ops| && u.ops[i].dst !in d ensures !AtDst(d0, d, u.ops[i]) {
    }
  }

  /** The rest of recoverItem for a row still `moving`, once the destinations have been looked at. */
  method FinishOrUndo(drive: Drive, db: Database, u: Unit, complete: seq<bool>, all: bool, ghost d0: Disk, ghost c0: Catalogue)
    returns (out: Outcome)
    requires Distinct(u.ops) && u.dest != "" && |complete| == |u.ops| && (all <==> false !in complete)
    requires forall i :: 0 <= i < |u.ops| && complete[i] ==> u.ops[i].dst in drive.disk
    modifies drive, db`catalogue, db`faults, db`stops
    ensures drive.stops >= old(drive.stops) && db.stops >= old(db.stops)
    ensures drive.stops + db.stops == old(drive.stops) + old(db.stops) + if out.Crashed? then 1 else 0
    ensures out.Finished? && drive.faults == old(drive.faults) && db.faults == old(db.faults) && Seen(old(drive.disk), u.ops, complete) ==>
              && RecoveredTo(old(drive.disk), old(db.catalogue), Moving, u, drive.disk, db.catalogue, out.status)
              && (NoPartials(old(drive.disk), u) ==> NoPartials(drive.disk, u))
    ensures Recoverable(d0, c0, old(drive.disk), old(db.catalogue), Moving, u) ==> Kept(d0, drive.disk, u.ops)
    ensures Ready(d0, u.ops) && Recoverable(d0, c0, old(drive.disk), old(db.catalogue), Moving, u)
            && out.Crashed? && Seen(old(drive.disk), u.ops, complete) ==>
              && (Recoverable(d0, c0, drive.disk, db.catalogue, Moving, u) <==> CanGoOn(d0, drive.disk, Moving, u))
              && (!out.undoing || drive.oneDevice || Planned(d0, u.ops) ==> CanGoOn(d0, drive.disk, Moving, u))
    ensures OnlyOps(old(drive.disk), drive.disk, u.ops)
    ensures drive.faults >= old(drive.faults) && db.faults >= old(db.faults)
    ensures out.Finished? ==> out.status == Moved || out.status == RolledBack || out.status == Failed
    ensures out.Finished? && out.status != Moved ==>
              if out.stuck || out.status == RolledBack then
                NotPutBack(old(drive.disk), drive.disk, u.ops, complete, 0) <= drive.faults - old(drive.faults)
              else db.faults > old(db.faults)
  {
    hide OnlyOps, PutAllBack, Kept, NotPutBack, Recoverable, CanGoOn, AllPlaced, Ready, Planned, NoPartials;
    hide Distinct, Safely;
    ghost var d, c := drive.disk, db.catalogue;
    assert all ==> forall i :: 0 <= i < |complete| ==> complete[i];
    if all && |u.ops| > 0 {
      out := FinishItem(drive, db, u, d0, c0);
      if Recoverable(d0, c0, d, c, Moving, u) {
        GoesOn(d0, c0, drive.disk, db.catalogue, u);
      }
    } else {
      if drive.oneDevice || Planned(d0, u.ops) {
        IncompleteIsSafe(drive.oneDevice, d0, u.ops, complete);
      }
      if Recoverable(d0, c0, d, c, Moving, u) {
        RecoverablePlaced(d0, c0, d, c, u);
      }
      out := UndoItem(drive, u, complete, d0);
      if Ready(d0, u.ops) && Recoverable(d0, c0, d, c, Moving, u) && Seen(d, u.ops, complete) {
        UndoingCutShort(d0, c0, d, c, drive.disk, u);
      }
    }
  }

  lemma RecoverablePlaced(d0: Disk, c0: Catalogue, d: Disk, c: Catalogue, u: Unit)
    requires Recoverable(d0, c0, d, c, Moving, u)
    ensures AllPlaced(d0, d, u.ops)
  {
  }

  /** Where a destination is missing, and the undo of what is in place is cut short. */
  lemma UndoingCutShort(d0: Disk, c0: Catalogue, d: Disk, c: Catalogue, d': Disk, u: Unit)
    requires Ready(d0, u.ops) && Recoverable(d0, c0, d, c, Moving, u) && Kept(d0, d', u.ops)
    requires u.ops == [] || exists i :: 0 <= i < |u.ops| && u.ops[i].dst !in d
    ensures Recoverable(d0, c0, d', c, Moving, u) <==> CanGoOn(d0, d', Moving, u)
    ensures AllPlaced(d0, d', u.ops) ==> CanGoOn(d0, d', Moving, u)
  {
    WholeIsPlaced(d0, d', u.ops);
    CatalogueUntouched(d0, c0, d, c, u);
  }

  /** What was seen of the destinations is so. */
  ghost predicate Seen(d: Disk, ops: seq<Op>, complete: seq<bool>) {
    |complete| == |ops| && forall i :: 0 <= i < |ops| ==> (complete[i] <==> ops[i].dst in d)
  }

  /** recoverItem for a row still `moving`: finish the move if every destination is in place, else undo it. */
  method RecoverMoving(drive: Drive, db: Database, u: Unit, ghost d0: Disk, ghost c0: Catalogue) returns (out: Outcome)
    requires Distinct(u.ops) && u.dest != ""
    modifies drive, db`catalogue, db`faults, db`stops
    ensures drive.stops >= old(drive.stops) && db.stops >= old(db.stops)
    ensures drive.stops + db.stops == old(drive.stops) + old(db.stops) + if out.Crashed? then 1 else 0
    ensures out.Finished? && drive.faults == old(drive.faults) && db.faults == old(db.faults) ==>
              && RecoveredTo(old(drive.disk), old(db.catalogue), Moving, u, drive.disk, db.catalogue, out.status)
              && NoPartials(drive.disk, u)
    ensures Recoverable(d0, c0, old(drive.disk), old(db.catalogue), Moving, u) ==> Kept(d0, drive.disk, u.ops)
    ensures Ready(d0, u.ops) && Recoverable(d0, c0, old(drive.disk), old(db.catalogue), Moving, u)
            && out.Crashed? && drive.faults == old(drive.faults) ==>
              && (Recoverable(d0, c0, drive.disk, db.catalogue, Moving, u) <==> CanGoOn(d0, drive.disk, Moving, u))
              && (!out.undoing || drive.oneDevice || Planned(d0, u.ops) ==> CanGoOn(d0, drive.disk, Moving, u))
    ensures OnlyOps(old(drive.disk), drive.disk, u.ops)
    ensures drive.faults >= old(drive.faults) && db.faults >= old(db.faults)
    ensures out.Finished? ==> out.status == Moved || out.status == RolledBack || out.status == Failed
    ensures out.Finished? && out.status != Moved ==>
              if out.stuck || out.status == RolledBack then
                NotUndone(old(drive.disk), drive.disk, u.ops, 0) <= drive.faults - old(drive.faults)
              else db.faults > old(db.faults)
  {
    hide NotUndone, NotPutBack, Missed;
    hide AllPlaced, CanGoOn, PutAllBack, NoPartials, Kept, Placed, AtDst, RecoveredTo, Recovered, SameEntries, OnlyOps;
    hide Recoverable, Planned, Ready, Distinct;
    ghost var d, c := drive.disk, db.catalogue;
    var complete, all, stopped := Survey(drive, u);
    ghost var d1 := drive.disk;
    SameIsOnlyOps(d, d1, u.ops);
    if Recoverable(d0, c0, d, c, Moving, u) {
      SurveyKeeps(d0, c0, d, drive.disk, c, u);
      GoesOn(d0, c0, drive.disk, c, u);
    }
    if stopped {
      return Crashed(false, false);
    }
    out := FinishOrUndo(drive, db, u, complete, all, d0, c0);
    OnlyOpsAgain(d, d1, drive.disk, u.ops);
    UndoneAfterSurvey(d, d1, drive.disk, u.ops, complete);
    if out.Finished? {
      RecoveredToSame(d, d1, c, u, drive.disk, db.catalogue, out.status);
    }
  }

  lemma UndoneAfterSurvey(d: Disk, d1: Disk, d': Disk, ops: seq<Op>, complete: seq<bool>)
    requires Distinct(ops) && SameEntries(d, d1) && |complete| == |ops|
    ensures NotUndone(d, d', ops, 0) <= NotPutBack(d1, d', ops, complete, 0) + Missed(d1, ops, complete, 0)
  {
    UndoneOrNot(d, d1, d', ops, complete, 0);
  }

  lemma SameIsOnlyOps(d: Disk, d1: Disk, ops: seq<Op>)
    requires SameEntries(d, d1)
    ensures OnlyOps(d, d1, ops)
  {
  }

  lemma RecoveredToSame(d: Disk, d1: Disk, c: Catalogue, u: Unit, d2: Disk, c2: Catalogue, s2: Status)
    requires Distinct(u.ops) && SameEntries(d, d1)
    ensures RecoveredTo(d1, c, Moving, u, d2, c2, s2) ==> RecoveredTo(d, c, Moving, u, d2, c2, s2)
  {
    hide Recovered;
    RecoveredSame(d, d1, c, u);
  }

  lemma GoesOn(d0: Disk, c0: Catalogue, d: Disk, c: Catalogue, u: Unit)
    requires Recoverable(d0, c0, d, c, Moving, u) && Kept(d0, d, u.ops)
    ensures Ready(d0, u.ops) ==> CanGoOn(d0, d, Moving, u)
  {
    if Ready(d0, u.ops) {
      WholeIsPlaced(d0, d, u.ops);
    }
  }

  /** The end of a move: wholly done and journaled `moved`, or nothing changed. */
  ghost predicate Settled(d0: Disk, c0: Catalogue, d: Disk, c: Catalogue, s: Status, u: Unit) {
    || (s == Moved && AllAtDst(d0, d, u.ops) && c == Applied(c0, u.files, u.dest))
    || ((s == RolledBack || s == Failed || s == Skipped) && AllUnmoved(d0, d, u.ops) && c == c0)
  }

  /** From a recoverable state, what recovery computes is settled. */
  lemma RecoveredIsSettled(d0: Disk, c0: Catalogue, d: Disk, c: Catalogue, s: Status, u: Unit, d': Disk)
    requires Distinct(u.ops) && Ready(d0, u.ops) && (s == Moving || s == FsDone)
    requires Recoverable(d0, c0, d, c, s, u)
    requires SameEntries(Recovered(d, c, s, u).disk, d')
    ensures var r := Recovered(d, c, s, u);
            Settled(d0, c0, d', r.catalogue, r.status, u) && Recoverable(d0, c0, d', r.catalogue, s, u)
  {
    AppliedTwice(c0, u.files, u.dest);
    if s == Moving && !(AllComplete(d, u.ops) && u.ops != []) {
      UndoneIsSettled(d0, d, d', u.ops);
      assert u.ops != [] ==> exists i :: 0 <= i < |u.ops| && !AtDst(d0, d, u.ops[i]);
    } else {
      forall i | 0 <= i < |u.ops| ensures AtDst(d0, d', u.ops[i]) {
        assert u.ops[i] in u.ops && u.ops[i].dst !in Sources(u.ops);
        assert s == Moving ==> Placed(d0, d, u.ops[i]);
      }
    }
  }

  lemma UndoneIsSettled(d0: Disk, d: Disk, d': Disk, ops: seq<Op>)
    requires Distinct(ops) && Ready(d0, ops) && AllPlaced(d0, d, ops) && !(AllComplete(d, ops) && ops != [])
    requires SameEntries(PutAllBack(d, ops), d')
    ensures AllUnmoved(d0, d', ops) && AllPlaced(d0, d', ops)
    ensures ops != [] ==> exists i :: 0 <= i < |ops| && !AtDst(d0, d, ops[i])
  {
    PutAllBackAt(d, ops);
    forall i | 0 <= i < |ops| ensures Unmoved(d0, d', ops[i]) && Placed(d0, d', ops[i]) {
      assert Placed(d0, d, ops[i]);
    }
    if ops != [] {
      var op :| op in ops && op.dst !in d;
      var k :| 0 <= k < |ops| && ops[k] == op;
      assert !AtDst(d0, d, ops[k]);
    }
  }

  /** RecoverMoves for one row: finish or undo it, or skip it if it never began, and journal the outcome. */
  method RecoverRow(drive: Drive, db: Database, u: Unit, ghost d0: Disk, ghost c0: Catalogue) returns (out: Outcome)
    requires Distinct(u.ops) && Ready(d0, u.ops) && u.dest != ""
    modifies drive, db
    ensures drive.stops >= old(drive.stops) && db.stops >= old(db.stops)
    ensures drive.stops + db.stops == old(drive.stops) + old(db.stops) + if out.Crashed? then 1 else 0
    ensures OnlyOps(old(drive.disk), drive.disk, u.ops)
    ensures Recoverable(d0, c0, old(drive.disk), old(db.catalogue), old(db.status), u) ==> Kept(d0, drive.disk, u.ops)
    ensures Recoverable(d0, c0, old(drive.disk), old(db.catalogue), old(db.status), u)
            && out.Finished? && drive.faults == old(drive.faults) && db.faults == old(db.faults) ==>
              && Settled(d0, c0, drive.disk, db.catalogue, db.status, u)
              && (old(db.status) == Moving || NoPartials(old(drive.disk), u) ==> NoPartials(drive.disk, u))
    ensures Recoverable(d0, c0, old(drive.disk), old(db.catalogue), old(db.status), u)
            && out.Crashed? && drive.faults == old(drive.faults) && db.faults == old(db.faults) ==>
              && (Recoverable(d0, c0, drive.disk, db.catalogue, db.status, u) <==> CanGoOn(d0, drive.disk, db.status, u))
              && (!out.undoing || drive.oneDevice || Planned(d0, u.ops) ==> CanGoOn(d0, drive.disk, db.status, u))
    ensures out.Crashed? && out.undoing ==> old(db.status) == Moving && db.status == Moving
    ensures out.Finished? ==> db.status == out.status
    ensures out.Finished? && drive.faults == old(drive.faults) && db.faults == old(db.faults) ==>
              && (old(db.status) == Pending ==> db.status == Skipped)
              && (old(db.status) == FsDone ==> db.status == Moved)
              && (old(db.status) == Moving ==>
                    db.status == if u.ops != [] && forall i :: 0 <= i < |u.ops| ==> u.ops[i].dst in old(drive.disk) then Moved
                                 else RolledBack)
    ensures out.Finished? && (old(db.status) == Moving || old(db.status) == FsDone) ==>
              && (db.status == Moved || (db.status == RolledBack && old(db.status) == Moving) || db.status == Failed)
              && (db.status != Moved ==>
                    if old(db.status) == Moving && (out.stuck || db.status == RolledBack) then
                      NotUndone(old(drive.disk), drive.disk, u.ops, 0) <= drive.faults - old(drive.faults)
                    else db.faults > old(db.faults))
    ensures old(db.status) != Pending && old(db.status) != Moving && old(db.status) != FsDone ==>
              out.Finished? && drive.disk == old(drive.disk) && db.catalogue == old(db.catalogue) && db.status == old(db.status)
              && drive.faults == old(drive.faults) && db.faults == old(db.faults)
    ensures drive.faults >= old(drive.faults) && db.faults >= old(db.faults)
  {
    hide AllPlaced, Kept, NoPartials, SameEntries, Recovered, Planned, NotUndone;
    hide Recoverable, CanGoOn, Settled, Ready, Distinct, OnlyOps;
    SameIsOnlyOps(drive.disk, drive.disk, u.ops);
    ghost var sound := Recoverable(d0, c0, drive.disk, db.catalogue, db.status, u);
    if sound {
      RecoverableKeeps(d0, c0, drive.disk, db.catalogue, db.status, u);
    }
    ghost var d, c, s := drive.disk, db.catalogue, db.status;
    if db.status == Pending {
      if sound {
        NeverBegun(d0, c0, d, c, u);
      }
      var stopped := db.SetItem(Skipped);
      return if stopped then Crashed(false, false) else Finished(Skipped, false);
    }
    if db.status != Moving && db.status != FsDone {
      if sound {
        OverIsSettled(d0, c0, d, c, s, u);
      }
      return Finished(db.status, false);
    }
    out := RecoverItem(drive, db, u, d0, c0);
    if out.Finished? {
      AnswerOf(d, c, s, u);
      if sound && drive.faults == old(drive.faults) && db.faults == old(db.faults) {
        RecoveredIsSettled(d0, c0, d, c, s, u, drive.disk);
        SettledGoesOn(d0, c0, drive.disk, db.catalogue, s, out.status, u);
      }
      var stopped := db.SetItem(out.status);
      if stopped {
        out := Crashed(false, false);
      }
    }
  }

  /** A row that never began is settled as skipped. */
  lemma NeverBegun(d0: Disk, c0: Catalogue, d: Disk, c: Catalogue, u: Unit)
    requires Recoverable(d0, c0, d, c, Pending, u)
    ensures Settled(d0, c0, d, c, Skipped, u) && Recoverable(d0, c0, d, c, Skipped, u)
    ensures CanGoOn(d0, d, Pending, u) && CanGoOn(d0, d, Skipped, u)
  {
  }

  /** A row that is over stays as it is. */
  lemma OverIsSettled(d0: Disk, c0: Catalogue, d: Disk, c: Catalogue, s: Status, u: Unit)
    requires Recoverable(d0, c0, d, c, s, u) && s != Pending && s != Moving && s != FsDone
    ensures Settled(d0, c0, d, c, s, u)
  {
  }

  /** Between settling a title and journaling it. */
  lemma SettledGoesOn(d0: Disk, c0: Catalogue, d: Disk, c: Catalogue, s: Status, s': Status, u: Unit)
    requires Ready(d0, u.ops) && (s == Moving || s == FsDone) && Recoverable(d0, c0, d, c, s, u) && Settled(d0, c0, d, c, s', u)
    ensures Recoverable(d0, c0, d, c, s', u) && CanGoOn(d0, d, s, u) && CanGoOn(d0, d, s', u)
  {
    if s == Moving {
      RecoverableKeeps(d0, c0, d, c, s, u);
      GoesOn(d0, c0, d, c, u);
    }
  }

  /** What recovery answers, by the paths it finds. */
  lemma AnswerOf(d: Disk, c: Catalogue, s: Status, u: Unit)
    requires s == Moving || s == FsDone
    ensures Recovered(d, c, s, u).status ==
            if s == FsDone || (u.ops != [] && forall i :: 0 <= i < |u.ops| ==> u.ops[i].dst in d) then Moved else RolledBack
  {
    assert AllComplete(d, u.ops) <==> forall i :: 0 <= i < |u.ops| ==> u.ops[i].dst in d by {
      assert forall i :: 0 <= i < |u.ops| ==> u.ops[i] in u.ops;
    }
  }

  /** The status a recovery without faults gives a row, by its status and the paths it finds. */
  function Answered(d: Disk, s: Status, u: Unit): Status {
    match s
    case Pending => Skipped
    case FsDone => Moved
    case Moving => if u.ops != [] && AllComplete(d, u.ops) then Moved else RolledBack
    case _ => s
  }

  lemma AnsweredAs(d: Disk, s: Status, u: Unit)
    ensures Answered(d, s, u) ==
            if s == Pending then Skipped
            else if s == FsDone then Moved
            else if s != Moving then s
            else if u.ops != [] && forall i :: 0 <= i < |u.ops| ==> u.ops[i].dst in d then Moved
            else RolledBack
  {
    assert AllComplete(d, u.ops) <==> forall i :: 0 <= i < |u.ops| ==> u.ops[i].dst in d by {
      assert forall i :: 0 <= i < |u.ops| ==> u.ops[i] in u.ops;
    }
  }

  /** What a crash left. */
  datatype Cut = Cut(disk: Disk, catalogue: Catalogue, status: Status)

  /** A state from which recovery cannot be right, by RecoveryIsRightIff: nothing is lost in it yet. */
  ghost predicate Unrecoverable(d0: Disk, c0: Catalogue, cut: Cut, u: Unit) {
    && (cut.status == Moving || cut.status == FsDone) && !CanGoOn(d0, cut.disk, cut.status, u)
    && !Recoverable(d0, c0, cut.disk, cut.catalogue, cut.status, u) && Kept(d0, cut.disk, u.ops)
  }

  /** The row is `failed`: the catalogue is as it was, and nothing is lost or replaced. */
  ghost predicate GivenUp(d0: Disk, c0: Catalogue, d: Disk, c: Catalogue, s: Status, u: Unit) {
    s == Failed && c == c0 && Kept(d0, d, u.ops) && NothingReplaced(d0, d, u.ops)
  }

  /** How a title stands between two restarts. */
  ghost predicate Resting(d0: Disk, c0: Catalogue, d: Disk, c: Catalogue, s: Status, u: Unit, faulted: bool) {
    Recoverable(d0, c0, d, c, s, u) || (GivenUp(d0, c0, d, c, s, u) && faulted)
  }

  lemma RestingKeeps(d0: Disk, c0: Catalogue, d: Disk, c: Catalogue, s: Status, u: Unit, faulted: bool)
    requires Resting(d0, c0, d, c, s, u, faulted)
    ensures Kept(d0, d, u.ops)
  {
    if Recoverable(d0, c0, d, c, s, u) {
      RecoverableKeeps(d0, c0, d, c, s, u);
    }
  }

  /** RecoverRow, for a title at rest. */
  method RecoverAgain(drive: Drive, db: Database, u: Unit, ghost d0: Disk, ghost c0: Catalogue, ghost faulted: bool) returns (out: Outcome)
    requires Distinct(u.ops) && Ready(d0, u.ops) && u.dest != ""
    modifies drive, db
    ensures drive.stops >= old(drive.stops) && db.stops >= old(db.stops)
    ensures drive.stops + db.stops == old(drive.stops) + old(db.stops) + if out.Crashed? then 1 else 0
    ensures OnlyOps(old(drive.disk), drive.disk, u.ops)
    ensures Resting(d0, c0, old(drive.disk), old(db.catalogue), old(db.status), u, faulted) ==> Kept(d0, drive.disk, u.ops)
    ensures Resting(d0, c0, old(drive.disk), old(db.catalogue), old(db.status), u, faulted)
            && out.Finished? && drive.faults == old(drive.faults) && db.faults == old(db.faults) ==>
              || Settled(d0, c0, drive.disk, db.catalogue, db.status, u)
              || (GivenUp(d0, c0, drive.disk, db.catalogue, db.status, u) && faulted)
    ensures Resting(d0, c0, old(drive.disk), old(db.catalogue), old(db.status), u, faulted)
            && out.Crashed? && drive.faults == old(drive.faults) && db.faults == old(db.faults) ==>
              || Recoverable(d0, c0, drive.disk, db.catalogue, db.status, u)
              || (Unrecoverable(d0, c0, Cut(drive.disk, db.catalogue, db.status), u) && db.status == Moving
                  && !drive.oneDevice && !Planned(d0, u.ops))
    ensures out.Finished? && drive.faults == old(drive.faults) && db.faults == old(db.faults) ==>
              db.status == Answered(old(drive.disk), old(db.status), u)
    ensures drive.faults >= old(drive.faults) && db.faults >= old(db.faults)
  {
    hide OnlyOps, Kept, CanGoOn, Recoverable, Settled, Ready, Unrecoverable, Distinct, NoPartials, Resting, GivenUp;
    hide Planned, Recovered, Answered;
    ghost var d, c, s := drive.disk, db.catalogue, db.status;
    out := RecoverRow(drive, db, u, d0, c0);
    AnsweredAs(d, s, u);
    if Resting(d0, c0, d, c, s, u, faulted) {
      RestingIs(d0, c0, d, c, s, u, faulted);
      CutShortIs(d0, c0, drive.disk, db.catalogue, db.status, u, faulted);
    }
  }

  /**
   A whole run: the move, then a recovery after every crash, each of which may crash again. Whatever
   fails on the way out, once a recovery without faults ends, the title is wholly at its destination
   or wholly where it was - or, after a fault of the move itself, its row is `failed` and nothing is
   lost - and the row says so: `found` is what that recovery found. Nothing is lost either if it has
   faults; `calm` says that those cut short before it had none. `lost` says that a crash left a state in
   which CanGoOn fails. Of a planned title, or on one device, that is one on a row already `fs_done`,
   while it was undone because its catalogue update had failed.
   */
  method RunAcrossRestarts(drive: Drive, db: Database, u: Unit, restarts: nat)
    returns (over: bool, ghost calm: bool, ghost faulted: bool, ghost lost: bool, ghost cut: Cut, ghost found: Option<Cut>)
    requires Distinct(u.ops) && Ready(drive.disk, u.ops) && u.dest != "" && db.status == Pending
    modifies drive, db
    ensures if over then drive.stops + db.stops <= old(drive.stops) + old(db.stops) + restarts
            else drive.stops + db.stops == old(drive.stops) + old(db.stops) + restarts + 1
    ensures over && calm && !lost && !faulted ==>
              || Settled(old(drive.disk), old(db.catalogue), drive.disk, db.catalogue, db.status, u)
              || (GivenUp(old(drive.disk), old(db.catalogue), drive.disk, db.catalogue, db.status, u)
                  && (drive.faults > old(drive.faults) || db.faults > old(db.faults)))
    ensures over && !faulted ==>
              if found.Some? then db.status == Answered(found.value.disk, found.value.status, u)
              else db.status == Moved || db.status == Failed
    ensures !over && calm && !lost ==>
              Resting(old(drive.disk), old(db.catalogue), drive.disk, db.catalogue, db.status, u,
                      drive.faults > old(drive.faults) || db.faults > old(db.faults))
    ensures lost ==>
              && Unrecoverable(old(drive.disk), old(db.catalogue), cut, u)
              && (if cut.status == Moving then !drive.oneDevice && !Planned(old(drive.disk), u.ops) else db.faults > old(db.faults))
    ensures OnlyOps(old(drive.disk), drive.disk, u.ops)
    ensures calm && !lost ==> Kept(old(drive.disk), drive.disk, u.ops)
    ensures drive.faults == old(drive.faults) && db.faults == old(db.faults) ==> calm && !faulted
  {
    hide OnlyOps, Kept, NothingReplaced, CanGoOn, Recoverable, Settled, Ready, Unrecoverable, Distinct;
    hide SameAt, Tidy, AllAtDst, AllUnmoved, Applied, Resting, GivenUp, Planned, Answered, NotBack;
    ghost var d0, c0, f0, g0 := drive.disk, db.catalogue, drive.faults, db.faults;
    calm, faulted, cut, found := true, false, Cut(d0, c0, Pending), None;
    var out := ExecuteUnit(drive, db, u);
    lost := out.Crashed? && db.status != Failed && !Recoverable(d0, c0, drive.disk, db.catalogue, db.status, u);
    if lost {
      cut := Cut(drive.disk, db.catalogue, db.status);
    }
    if out.Finished? {
      FinishedIs(d0, c0, drive.disk, db.catalogue, db.status, u);
      return true, true, false, false, cut, None;
    }
    CutShortIs(d0, c0, drive.disk, db.catalogue, db.status, u, drive.faults > f0 || db.faults > g0);
    for i := 0 to restarts
      invariant OnlyOps(d0, drive.disk, u.ops)
      invariant calm && !lost ==>
                  Resting(d0, c0, drive.disk, db.catalogue, db.status, u, drive.faults > f0 || db.faults > g0)
      invariant lost ==>
                  && Unrecoverable(d0, c0, cut, u)
                  && (if cut.status == Moving then !drive.oneDevice && !Planned(d0, u.ops) else db.faults > g0)
      invariant !calm || faulted ==> drive.faults > f0 || db.faults > g0
      invariant drive.faults >= f0 && db.faults >= g0
      invariant drive.stops + db.stops == old(drive.stops) + old(db.stops) + i + 1
    {
      ghost var d, f, g := drive.disk, drive.faults, db.faults;
      found := Some(Cut(drive.disk, db.catalogue, db.status));
      out := RecoverAgain(drive, db, u, d0, c0, f > f0 || g > g0);
      OnlyOpsAgain(d0, d, drive.disk, u.ops);
      RecoverableRests(d0, c0, drive.disk, db.catalogue, db.status, u, drive.faults > f0 || db.faults > g0);
      faulted := drive.faults != f || db.faults != g;
      if out.Finished? {
        return true, calm, faulted, lost, cut, found;
      }
      calm := calm && !faulted;
      if calm && !lost && !Recoverable(d0, c0, drive.disk, db.catalogue, db.status, u) {
        lost, cut := true, Cut(drive.disk, db.catalogue, db.status);
      }
    }
    if calm && !lost {
      RestingKeeps(d0, c0, drive.disk, db.catalogue, db.status, u, drive.faults > f0 || db.faults > g0);
    }
    return false, calm, faulted, lost, cut, found;
  }

  lemma FinishedIs(d0: Disk, c0: Catalogue, d: Disk, c: Catalogue, s: Status, u: Unit)
    requires Kept(d0, d, u.ops) && NothingReplaced(d0, d, u.ops)
    requires if s == Moved then AllAtDst(d0, d, u.ops) && c == Applied(c0, u.files, u.dest) else s == Failed && c == c0
    ensures Settled(d0, c0, d, c, s, u) || GivenUp(d0, c0, d, c, s, u)
    ensures s == Moved ==> Settled(d0, c0, d, c, s, u)
  {
  }

  /** A crash leaves the title to rest if it left it recoverable or `failed`, and otherwise beyond recovery. */
  lemma CutShortIs(d0: Disk, c0: Catalogue, d: Disk, c: Catalogue, s: Status, u: Unit, faulted: bool)
    requires Kept(d0, d, u.ops)
    ensures Recoverable(d0, c0, d, c, s, u) ==> Resting(d0, c0, d, c, s, u, faulted)
    ensures s == Failed && c == c0 && NothingReplaced(d0, d, u.ops) && faulted ==> Resting(d0, c0, d, c, s, u, faulted)
    ensures !Recoverable(d0, c0, d, c, s, u) && !CanGoOn(d0, d, s, u) ==> Unrecoverable(d0, c0, Cut(d, c, s), u)
  {
  }

  lemma RecoverableRests(d0: Disk, c0: Catalogue, d: Disk, c: Catalogue, s: Status, u: Unit, faulted: bool)
    ensures Recoverable(d0, c0, d, c, s, u) ==> Resting(d0, c0, d, c, s, u, faulted)
  {
  }

  lemma RestingIs(d0: Disk, c0: Catalogue, d: Disk, c: Catalogue, s: Status, u: Unit, faulted: bool)
    requires Resting(d0, c0, d, c, s, u, faulted)
    ensures Recoverable(d0, c0, d, c, s, u) || (s == Failed && faulted && Kept(d0, d, u.ops) && GivenUp(d0, c0, d, c, s, u))
  {
  }

  // ---------------------------------------------------------------------
  // Why a plan is one folder, or files
  // ---------------------------------------------------------------------

  /** The put-back of op has copied its content back, and was stopped while it removed the destination. */
  ghost predicate PutBackCut(d: Disk, d': Disk, op: Op) {
    && op.dst in d && SameExcept(d, d', {op.src, op.dst})
    && op.src in d' && d'[op.src] == d[op.dst] && op.dst in d' && SubTree(d'[op.dst], d[op.dst])
  }

  /** Some operation has a destination missing, and no put-back that is cut short leaves one half deleted. */
  ghost predicate CutsAreSafe(d0: Disk, ops: seq<Op>) {
    forall d, d', i ::
      AllPlaced(d0, d, ops) && !AllComplete(d, ops) && 0 <= i < |ops| && PutBackCut(d, d', ops[i]) ==> AllPlaced(d0, d', ops)
  }

  /** Between devices a put-back may be stopped anywhere, for exactly the operations that a plan can have. */
  lemma PutBackIsSafeIff(d0: Disk, ops: seq<Op>)
    requires Distinct(ops) && Ready(d0, ops)
    ensures CutsAreSafe(d0, ops) <==> Planned(d0, ops)
  {
    if Planned(d0, ops) {
      forall d, d', i | AllPlaced(d0, d, ops) && !AllComplete(d, ops) && 0 <= i < |ops| && PutBackCut(d, d', ops[i])
        ensures AllPlaced(d0, d', ops)
      {
        CutOfPlanned(d0, d, d', ops, i);
      }
    } else {
      var i :| 0 <= i < |ops| && !MovesOnePiece(d0, ops[i]);
      var d, d' := CutOfFolder(d0, ops, i);
    }
  }

  lemma CutOfPlanned(d0: Disk, d: Disk, d': Disk, ops: seq<Op>, i: nat)
    requires Distinct(ops) && Ready(d0, ops) && Planned(d0, ops) && i < |ops|
    requires AllPlaced(d0, d, ops) && !AllComplete(d, ops) && PutBackCut(d, d', ops[i])
    ensures AllPlaced(d0, d', ops)
  {
    var op :| op in ops && op.dst !in d;
    assert ops[i] != op;
    forall j | 0 <= j < |ops| ensures Placed(d0, d', ops[j]) {
      assert Placed(d0, d, ops[j]);
    }
  }

  /** A folder among other operations: it has moved, and is put back for another's sake. */
  lemma CutOfFolder(d0: Disk, ops: seq<Op>, i: nat) returns (d: Disk, d': Disk)
    requires Distinct(ops) && Ready(d0, ops) && |ops| > 1 && i < |ops| && !MovesOnePiece(d0, ops[i])
    ensures AllPlaced(d0, d, ops) && !AllComplete(d, ops) && PutBackCut(d, d', ops[i]) && !AllPlaced(d0, d', ops)
  {
    var op, other := ops[i], ops[if i == 0 then 1 else 0];
    d := (d0 - {op.src})[op.dst := d0[op.src]];
    d' := d0[op.dst := map[]];
    assert other in ops && other.dst !in d;
    forall j | 0 <= j < |ops| ensures Placed(d0, d, ops[j]) {
      assert j != i ==> ops[j].src != op.src && ops[j].dst != op.dst && ops[j].src != op.dst;
    }
    assert !Placed(d0, d', ops[i]);
  }

  // ---------------------------------------------------------------------
  // The crash a move does not survive
  // ---------------------------------------------------------------------

  const Film: Tree := map["." := [1, 2, 3]]
  const FilmOp := Op(Entry("a", "film.mkv"), Entry("b", "film.mkv"))
  const SubsOp := Op(Entry("a", "film.srt"), Entry("b", "film.srt"))

  /**
   The files had moved and the row said so, the catalogue update failed, the files were put back, and
   the machine stopped before the row said `failed`: recovery then lists the title at a destination
   that is empty.
   */
  lemma CrashAfterCatalogueFailure(c0: Catalogue, files: seq<FileDest>)
    requires c0.library == "old"
    ensures var u := Unit("row", [FilmOp], files, "new");
            var d0: Disk := map[FilmOp.src := Film];
            var d1: Disk := map[FilmOp.dst := Film];
            var r := Recovered(d0, c0, FsDone, u);
            && Distinct(u.ops) && Ready(d0, u.ops) && Forward(d0, d1, u.ops, 1)
            && Committed(d1, d0, FilmOp.dst, FilmOp.src) && AllUnmoved(d0, d0, u.ops)
            && r.status == Moved && FilmOp.dst !in r.disk && !Agrees(d0, c0, r.disk, r.catalogue, u)
  {
    var u := Unit("row", [FilmOp], files, "new");
    var d0: Disk := map[FilmOp.src := Film];
    assert !AtDst(d0, d0, u.ops[0]);
  }
}
