/** A whole request: its titles are moved one after the other (internal/library/move_job.go, runMove). */
module MoveRun {
  import opened Collections
  import opened MoveFs
  import opened MoveJob

  /** The disks agree at every end of the title's operations. */
  ghost predicate SameEnds(d: Disk, d': Disk, u: Unit) {
    forall i :: 0 <= i < |u.ops| ==> Untouched(d, d', u.ops[i].src, u.ops[i].dst)
  }

  /** No end of one title's operations is an end of another's. */
  ghost predicate Separate(u: Unit, v: Unit) {
    forall i, j :: 0 <= i < |u.ops| && 0 <= j < |v.ops| ==>
      u.ops[i].src != v.ops[j].src && u.ops[i].src != v.ops[j].dst && u.ops[i].dst != v.ops[j].src && u.ops[i].dst != v.ops[j].dst
  }

  ghost predicate AllSeparate(units: seq<Unit>) {
    && (forall i :: 0 <= i < |units| ==> Distinct(units[i].ops))
    && (forall i, j :: 0 <= i < j < |units| ==> Separate(units[i], units[j]) && Separate(units[j], units[i]))
  }

  /**
   How a title stands on disk d, given the disk and the catalogue before the request: nothing of it is
   lost or replaced; it is untouched until its turn; moved means wholly moved; and unless it has moved
   its catalogue is as before.
   */
  ghost predicate Stands(d0: Disk, c0: Catalogue, d: Disk, c: Catalogue, s: Status, u: Unit) {
    && Kept(d0, d, u.ops) && NothingReplaced(d0, d, u.ops)
    && (s == Pending ==> SameEnds(d0, d, u) && c == c0)
    && (s == Moved ==> AllAtDst(d0, d, u.ops) && c == Applied(c0, u.files, u.dest))
    && (s == Failed ==> c == c0)
  }

  /** Where nothing at a title's ends changes, the title stands as it did. */
  lemma StandsStill(d0: Disk, c0: Catalogue, d: Disk, d': Disk, c: Catalogue, s: Status, u: Unit)
    requires Stands(d0, c0, d, c, s, u) && SameEnds(d, d', u)
    ensures Stands(d0, c0, d', c, s, u)
  {
    forall i | 0 <= i < |u.ops|
      ensures AtSrc(d0, d, u.ops[i]) == AtSrc(d0, d', u.ops[i]) && AtDst(d0, d, u.ops[i]) == AtDst(d0, d', u.ops[i])
      ensures Untouched(d, d', u.ops[i].src, u.ops[i].dst)
    {
    }
  }

  /** What a title's own run says of the disk it started from holds of the disk before the request. */
  lemma SinceTheStart(d0: Disk, c0: Catalogue, d: Disk, d': Disk, c': Catalogue, s: Status, u: Unit)
    requires SameEnds(d0, d, u) && Stands(d, c0, d', c', s, u)
    ensures Stands(d0, c0, d', c', s, u)
  {
    forall i | 0 <= i < |u.ops|
      ensures Untouched(d0, d, u.ops[i].src, u.ops[i].dst)
      ensures AtSrc(d0, d', u.ops[i]) == AtSrc(d, d', u.ops[i]) && AtDst(d0, d', u.ops[i]) == AtDst(d, d', u.ops[i])
    {
    }
  }

  /** A title's run leaves the ends of every other title alone. */
  lemma OthersUntouched(d: Disk, d': Disk, u: Unit, v: Unit)
    requires OnlyOps(d, d', u.ops) && Separate(v, u) && Distinct(v.ops)
    ensures SameEnds(d, d', v)
  {
    forall i | 0 <= i < |v.ops| ensures Untouched(d, d', v.ops[i].src, v.ops[i].dst) {
    }
  }

  /** executeUnit of one title of the request; interrupted, it may have got anywhere, but has lost and replaced nothing. */
  method RunOne(drive: Drive, db: Database, u: Unit, ghost d0: Disk) returns (out: Outcome)
    requires Distinct(u.ops) && db.status == Pending && SameEnds(d0, drive.disk, u)
    modifies drive, db
    ensures drive.stops >= old(drive.stops) && db.stops >= old(db.stops)
    ensures drive.stops + db.stops == old(drive.stops) + old(db.stops) + if out.Crashed? then 1 else 0
    ensures OnlyOps(old(drive.disk), drive.disk, u.ops)
    ensures Kept(d0, drive.disk, u.ops) && NothingReplaced(d0, drive.disk, u.ops)
    ensures out.Finished? ==>
              && out.status == db.status && (db.status == Moved || db.status == Failed)
              && Stands(d0, old(db.catalogue), drive.disk, db.catalogue, db.status, u)
    ensures out.Crashed? && db.status == Failed ==> Stands(d0, old(db.catalogue), drive.disk, db.catalogue, Failed, u)
    ensures out.Crashed? && Ready(d0, u.ops) && db.status != Failed ==>
              && (Recoverable(d0, old(db.catalogue), drive.disk, db.catalogue, db.status, u)
                  <==> CanGoOn(d0, drive.disk, db.status, u))
              && (!out.undoing || (db.status == Moving && (drive.oneDevice || Planned(d0, u.ops))) ==>
                    CanGoOn(d0, drive.disk, db.status, u))
    ensures out.Finished? && db.status == Failed ==>
              NotBack(d0, drive.disk, u.ops, 0, |u.ops|) + (if Ready(d0, u.ops) && u.dest != "" then 1 else 0)
              <= drive.faults - old(drive.faults) + db.faults - old(db.faults)
    ensures drive.faults >= old(drive.faults) && db.faults >= old(db.faults)
  {
    hide NotBack;
    hide Planned, Recoverable, CanGoOn, Kept, NothingReplaced, OnlyOps, AllUnmoved, AllAtDst, Applied, Tidy, SameAt;
    hide SameEnds, Ready;
    ghost var d, c := drive.disk, db.catalogue;
    ReadySince(d0, d, u);
    PlannedSince(d0, d, u);
    out := ExecuteUnit(drive, db, u);
    NotBackSince(d0, d, drive.disk, u, 0);
    KeptSince(d0, d, drive.disk, u);
    if out.Finished? || db.status == Failed {
      SinceTheStart(d0, c, d, drive.disk, db.catalogue, db.status, u);
    } else {
      RecoverableSince(d0, d, c, drive.disk, db.catalogue, db.status, u);
    }
  }

  lemma ReadySince(d0: Disk, d: Disk, u: Unit)
    requires SameEnds(d0, d, u)
    ensures Ready(d0, u.ops) <==> Ready(d, u.ops)
  {
    assert forall i :: 0 <= i < |u.ops| ==> Untouched(d0, d, u.ops[i].src, u.ops[i].dst);
  }

  lemma {:induction false} NotBackSince(d0: Disk, d: Disk, d': Disk, u: Unit, i: nat)
    requires SameEnds(d0, d, u) && i <= |u.ops|
    ensures NotBack(d0, d', u.ops, i, |u.ops|) == NotBack(d, d', u.ops, i, |u.ops|)
    decreases |u.ops| - i
  {
    if i < |u.ops| {
      assert Untouched(d0, d, u.ops[i].src, u.ops[i].dst);
      NotBackSince(d0, d, d', u, i + 1);
    }
  }

  lemma PlannedSince(d0: Disk, d: Disk, u: Unit)
    requires SameEnds(d0, d, u)
    ensures Planned(d0, u.ops) ==> Planned(d, u.ops)
  {
    assert forall i :: 0 <= i < |u.ops| ==> Untouched(d0, d, u.ops[i].src, u.ops[i].dst);
  }

  lemma KeptSince(d0: Disk, d: Disk, d': Disk, u: Unit)
    requires SameEnds(d0, d, u) && Kept(d, d', u.ops) && NothingReplaced(d, d', u.ops)
    ensures Kept(d0, d', u.ops) && NothingReplaced(d0, d', u.ops)
  {
    forall i | 0 <= i < |u.ops|
      ensures Untouched(d0, d, u.ops[i].src, u.ops[i].dst)
      ensures AtSrc(d0, d', u.ops[i]) == AtSrc(d, d', u.ops[i]) && AtDst(d0, d', u.ops[i]) == AtDst(d, d', u.ops[i])
    {
    }
  }

  lemma RecoverableSince(d0: Disk, d: Disk, c0: Catalogue, d': Disk, c': Catalogue, s: Status, u: Unit)
    requires SameEnds(d0, d, u)
    ensures Recoverable(d, c0, d', c', s, u) <==> Recoverable(d0, c0, d', c', s, u)
    ensures CanGoOn(d, d', s, u) <==> CanGoOn(d0, d', s, u)
  {
    forall i | 0 <= i < |u.ops|
      ensures AtDst(d0, d', u.ops[i]) == AtDst(d, d', u.ops[i]) && Placed(d0, d', u.ops[i]) == Placed(d, d', u.ops[i])
      ensures Unmoved(d0, d', u.ops[i]) == Unmoved(d, d', u.ops[i])
    {
      assert Untouched(d0, d, u.ops[i].src, u.ops[i].dst);
    }
  }

  // ---------------------------------------------------------------------
  // The request
  // ---------------------------------------------------------------------

  datatype Row = Row(status: Status, catalogue: Catalogue)

  function Rows(dbs: seq<Database>): (rows: seq<Row>)
    reads dbs
    ensures |rows| == |dbs| && forall i :: 0 <= i < |dbs| ==> rows[i] == Row(dbs[i].status, dbs[i].catalogue)
  {
    if dbs == [] then [] else Rows(dbs[..|dbs| - 1]) + [Row(dbs[|dbs| - 1].status, dbs[|dbs| - 1].catalogue)]
  }

  /** The title has had its turn: it has wholly moved, or failed with its catalogue as it was. */
  ghost predicate Over(d0: Disk, before: Row, d: Disk, after: Row, u: Unit) {
    && (after.status == Moved || after.status == Failed)
    && Stands(d0, before.catalogue, d, after.catalogue, after.status, u)
  }

  /** The title's turn has not come. */
  ghost predicate Waiting(d0: Disk, before: Row, d: Disk, after: Row, u: Unit) {
    after == before && SameEnds(d0, d, u)
  }

  /** A title in whose turn the machine stopped can be recovered, or its turn is over. */
  ghost predicate Resumable(d0: Disk, before: Row, d: Disk, after: Row, u: Unit) {
    Recoverable(d0, before.catalogue, d, after.catalogue, after.status, u) || Over(d0, before, d, after, u)
  }

  /** The first k titles have had their turn and the others have not; what is claimed of `cut` is only that nothing of it is lost. */
  ghost predicate Progress(d0: Disk, before: seq<Row>, d: Disk, after: seq<Row>, units: seq<Unit>, k: nat, cut: int) {
    && |before| == |after| == |units|
    && (forall i :: 0 <= i < k && i < |units| && i != cut ==> Over(d0, before[i], d, after[i], units[i]))
    && (forall i :: k <= i < |units| && i != cut ==> Waiting(d0, before[i], d, after[i], units[i]))
    && (0 <= cut < |units| ==> Kept(d0, d, units[cut].ops) && NothingReplaced(d0, d, units[cut].ops))
  }

  lemma AllWaiting(d: Disk, rows: seq<Row>, units: seq<Unit>)
    requires |rows| == |units|
    ensures Progress(d, rows, d, rows, units, 0, -1)
  {
  }

  /** The k-th title has had its turn, or the machine stopped in it. */
  lemma NextTitle(d0: Disk, before: seq<Row>, d: Disk, rows: seq<Row>, d': Disk, row: Row, units: seq<Unit>, k: nat, cut: int)
    requires AllSeparate(units) && k < |units| && Progress(d0, before, d, rows, units, k, -1)
    requires OnlyOps(d, d', units[k].ops) && Kept(d0, d', units[k].ops) && NothingReplaced(d0, d', units[k].ops)
    requires if cut == -1 then Over(d0, before[k], d', row, units[k]) else cut == k
    ensures Progress(d0, before, d', rows[k := row], units, if cut == -1 then k + 1 else k, cut)
  {
    hide Stands, OnlyOps, Distinct, Kept, NothingReplaced, SameEnds, Separate;
    forall i | 0 <= i < |units| && i != k
      ensures if i < k then Over(d0, before[i], d', rows[i], units[i]) else Waiting(d0, before[i], d', rows[i], units[i])
    {
      assert Separate(units[i], units[k]) && Distinct(units[i].ops);
      OthersUntouched(d, d', units[k], units[i]);
      if i < k {
        StandsStill(d0, before[i].catalogue, d, d', rows[i].catalogue, rows[i].status, units[i]);
      } else {
        StillWaiting(d0, d, d', units[i]);
      }
    }
  }

  lemma StillWaiting(d0: Disk, d: Disk, d': Disk, u: Unit)
    requires SameEnds(d0, d, u) && SameEnds(d, d', u)
    ensures SameEnds(d0, d', u)
  {
    forall i | 0 <= i < |u.ops| ensures Untouched(d0, d', u.ops[i].src, u.ops[i].dst) {
      assert Untouched(d0, d, u.ops[i].src, u.ops[i].dst) && Untouched(d, d', u.ops[i].src, u.ops[i].dst);
    }
  }

  /**
   runMove: every title gets its turn, whatever becomes of those before it: each that was ready and has
   failed met a fault of its own. In the end each has moved wholly, or has failed with its catalogue as
   it was. A machine that stops in the turn of title `cut`
   has lost and replaced nothing of any title, leaves the others over or untouched, and recovery can
   resume `cut` itself exactly if CanGoOn holds of it: while going forward, when the row says `failed`
   and, on one device or of a planned title, while a row still `moving` was being undone.
   */
  method RunMove(drive: Drive, units: seq<Unit>, dbs: seq<Database>) returns (moved: nat, failed: nat, cut: int, ghost undoing: bool)
    requires |units| == |dbs| && AllSeparate(units)
    requires forall i, j :: 0 <= i < j < |dbs| ==> dbs[i] != dbs[j]
    requires forall i :: 0 <= i < |dbs| ==> dbs[i].status == Pending
    modifies drive, dbs
    ensures 0 <= cut < |dbs| ==> drive.stops + dbs[cut].stops == old(drive.stops) + old(dbs[cut].stops) + 1
    ensures cut == -1 ==>
              Progress(old(drive.disk), old(Rows(dbs)), drive.disk, Rows(dbs), units, |units|, -1)
    ensures cut != -1 ==>
              && 0 <= cut < |units|
              && Progress(old(drive.disk), old(Rows(dbs)), drive.disk, Rows(dbs), units, cut, cut)
              && (Ready(old(drive.disk), units[cut].ops) ==>
                    && (Resumable(old(drive.disk), old(Rows(dbs))[cut], drive.disk, Rows(dbs)[cut], units[cut])
                        <==> CanGoOn(old(drive.disk), drive.disk, dbs[cut].status, units[cut]))
                    && (!undoing || dbs[cut].status == Failed
                        || (dbs[cut].status == Moving && (drive.oneDevice || Planned(old(drive.disk), units[cut].ops))) ==>
                          CanGoOn(old(drive.disk), drive.disk, dbs[cut].status, units[cut])))
    ensures var k := if cut == -1 then |units| else cut;
            && moved + failed == k && moved == |MovedOf(Rows(dbs), k)|
            && |FailedUnharmed(old(drive.disk), Rows(dbs), units, old(Faults(dbs)), Faults(dbs), k)| <= drive.faults - old(drive.faults)
  {
    hide NotBack, MovedOf, FailedUnharmed, Faults;
    hide Planned, CanGoOn, Resumable, Progress, AllSeparate, Stands, OnlyOps, Kept, NothingReplaced, Recoverable;
    hide Ready, Distinct, SameEnds, Rows;
    ghost var d0, before, faults, f0 := drive.disk, Rows(dbs), Faults(dbs), drive.faults;
    moved, failed, cut, undoing := 0, 0, -1, false;
    AllWaiting(d0, before, units);
    NoneCounted(d0, before, units, faults);
    for i := 0 to |units|
      invariant Progress(d0, before, drive.disk, Rows(dbs), units, i, -1)
      invariant drive.stops == old(drive.stops) && forall j :: i <= j < |dbs| ==> dbs[j].stops == old(dbs[j].stops)
      invariant moved + failed == i && moved == |MovedOf(Rows(dbs), i)|
      invariant |FailedUnharmed(d0, Rows(dbs), units, faults, Faults(dbs), i)| <= drive.faults - f0
      invariant forall j :: i <= j < |dbs| ==> Faults(dbs)[j] == faults[j]
    {
      ghost var d, rows, f, g := drive.disk, Rows(dbs), drive.faults, Faults(dbs);
      ItsTurn(d0, before, d, rows, units, i);
      var out := RunOne(drive, dbs[i], units[i], d0);
      ghost var row := Row(dbs[i].status, dbs[i].catalogue);
      assert Rows(dbs) == rows[i := row];
      assert Faults(dbs) == g[i := dbs[i].faults];
      CountsNext(d0, rows, units, faults, g, i, row, dbs[i].faults);
      if out.Crashed? {
        NextTitle(d0, before, d, rows, drive.disk, row, units, i, i);
        CutIs(d0, before[i], drive.disk, row, units[i]);
        return moved, failed, i, out.undoing;
      }
      NextTitle(d0, before, d, rows, drive.disk, row, units, i, -1);
      if out.status == Moved {
        moved := moved + 1;
      } else {
        failed := failed + 1;
      }
    }
  }

  ghost function Faults(dbs: seq<Database>): (f: seq<nat>)
    reads dbs
    ensures |f| == |dbs| && forall i :: 0 <= i < |dbs| ==> f[i] == dbs[i].faults
  {
    if dbs == [] then [] else Faults(dbs[..|dbs| - 1]) + [dbs[|dbs| - 1].faults]
  }

  /** Those of the first k titles that have moved. */
  ghost function MovedOf(rows: seq<Row>, k: nat): set<int>
    requires k <= |rows|
  {
    set i | 0 <= i < k && rows[i].status == Moved
  }

  /** Those of the first k titles that were ready and have failed although the database failed in nothing of theirs. */
  ghost function FailedUnharmed(d0: Disk, rows: seq<Row>, units: seq<Unit>, was: seq<nat>, now: seq<nat>, k: nat): set<int>
    requires k <= |rows| == |units| == |was| == |now|
  {
    set i | 0 <= i < k && rows[i].status == Failed && now[i] == was[i] && Ready(d0, units[i].ops) && units[i].dest != ""
  }

  lemma NoneCounted(d0: Disk, rows: seq<Row>, units: seq<Unit>, faults: seq<nat>)
    requires |rows| == |units| == |faults|
    ensures MovedOf(rows, 0) == {} && FailedUnharmed(d0, rows, units, faults, faults, 0) == {}
  {
  }

  /** What the k-th title's turn adds to the counts. */
  lemma CountsNext(d0: Disk, rows: seq<Row>, units: seq<Unit>, was: seq<nat>, now: seq<nat>, k: nat, row: Row, fault: nat)
    requires k < |rows| == |units| == |was| == |now|
    ensures var rows', now' := rows[k := row], now[k := fault];
            && MovedOf(rows', k) == MovedOf(rows, k)
            && |MovedOf(rows', k + 1)| == |MovedOf(rows, k)| + (if row.status == Moved then 1 else 0)
            && FailedUnharmed(d0, rows', units, was, now', k) == FailedUnharmed(d0, rows, units, was, now, k)
            && |FailedUnharmed(d0, rows', units, was, now', k + 1)| <= |FailedUnharmed(d0, rows, units, was, now, k)|
               + (if row.status == Failed && fault == was[k] && Ready(d0, units[k].ops) && units[k].dest != "" then 1 else 0)
  {
    hide Ready;
    var rows', now' := rows[k := row], now[k := fault];
    var moved, failed := MovedOf(rows, k), FailedUnharmed(d0, rows, units, was, now, k);
    assert MovedOf(rows', k + 1) == if row.status == Moved then moved + {k} else moved;
    assert FailedUnharmed(d0, rows', units, was, now', k) == failed;
    SubsetSize(FailedUnharmed(d0, rows', units, was, now', k + 1),
               if row.status == Failed && fault == was[k] && Ready(d0, units[k].ops) && units[k].dest != "" then failed + {k} else failed);
  }

  /** A title cut short: `failed`, or still to be recovered. */
  lemma CutIs(d0: Disk, before: Row, d: Disk, after: Row, u: Unit)
    ensures after.status == Failed && Stands(d0, before.catalogue, d, after.catalogue, Failed, u) ==>
              Resumable(d0, before, d, after, u) && CanGoOn(d0, d, Failed, u)
    ensures (Recoverable(d0, before.catalogue, d, after.catalogue, after.status, u) <==> CanGoOn(d0, d, after.status, u)) ==>
              (Resumable(d0, before, d, after, u) <==> CanGoOn(d0, d, after.status, u))
  {
  }

  lemma ItsTurn(d0: Disk, before: seq<Row>, d: Disk, rows: seq<Row>, units: seq<Unit>, k: nat)
    requires AllSeparate(units) && k < |units| && Progress(d0, before, d, rows, units, k, -1)
    ensures Distinct(units[k].ops) && |rows| == |before| == |units| && rows[k] == before[k] && SameEnds(d0, d, units[k])
  {
  }

  // ---------------------------------------------------------------------
  // After a restart
  // ---------------------------------------------------------------------

  /** Recovery can resume the title `cut`; the others are over or were not begun. */
  ghost predicate Interrupted(d0: Disk, before: seq<Row>, d: Disk, rows: seq<Row>, units: seq<Unit>, cut: nat) {
    && cut < |units| && Progress(d0, before, d, rows, units, cut, cut)
    && Ready(d0, units[cut].ops) && units[cut].dest != ""
    && Resumable(d0, before[cut], d, rows[cut], units[cut])
  }

  /** The title has wholly moved, is wholly where it was, or has failed with its catalogue as it was and nothing lost. */
  ghost predicate Resolved(d0: Disk, before: Row, d: Disk, after: Row, u: Unit) {
    Over(d0, before, d, after, u) || Settled(d0, before.catalogue, d, after.catalogue, after.status, u)
  }

  ghost predicate AllResolved(d0: Disk, before: seq<Row>, d: Disk, after: seq<Row>, units: seq<Unit>) {
    && |before| == |after| == |units|
    && forall i :: 0 <= i < |units| ==> Resolved(d0, before[i], d, after[i], units[i])
  }

  predicate Underway(s: Status) {
    s == Moving || s == FsDone
  }

  /** Rows before k have been looked at; `cut`, if it was among them, has been settled. */
  ghost predicate Recovering(d0: Disk, before: seq<Row>, d: Disk, rows: seq<Row>, units: seq<Unit>, cut: nat, k: nat) {
    && cut < |units| && |before| == |rows| == |units| && Progress(d0, before, d, rows, units, cut, cut)
    && (if k <= cut then Interrupted(d0, before, d, rows, units, cut)
        else rows[cut].status == Pending || Resolved(d0, before[cut], d, rows[cut], units[cut]))
    && (forall i :: 0 <= i < |units| && i != cut ==> !Underway(rows[i].status))
    && (k > cut && rows[cut].status == Pending ==>
          rows[cut].catalogue == before[cut].catalogue && AllUnmoved(d0, d, units[cut].ops))
  }

  lemma BeginsRecovering(d0: Disk, before: seq<Row>, d: Disk, rows: seq<Row>, units: seq<Unit>, cut: nat)
    requires Interrupted(d0, before, d, rows, units, cut)
    requires forall i :: 0 <= i < |before| ==> before[i].status == Pending
    ensures Recovering(d0, before, d, rows, units, cut, 0)
  {
    hide Recoverable, Stands, SameEnds, Ready;
    forall i | 0 <= i < |units| && i != cut ensures !Underway(rows[i].status) {
      if i < cut {
        assert Over(d0, before[i], d, rows[i], units[i]);
      } else {
        assert Waiting(d0, before[i], d, rows[i], units[i]);
      }
    }
  }

  /** A row that is not underway is passed over. */
  lemma PassOver(d0: Disk, before: seq<Row>, d: Disk, rows: seq<Row>, units: seq<Unit>, cut: nat, k: nat)
    requires Recovering(d0, before, d, rows, units, cut, k) && k < |units| && !Underway(rows[k].status)
    ensures Recovering(d0, before, d, rows, units, cut, k + 1)
  {
    hide Progress;
    if k == cut && rows[cut].status != Pending && !Over(d0, before[cut], d, rows[cut], units[cut]) {
      assert Settled(d0, before[cut].catalogue, d, rows[cut].catalogue, rows[cut].status, units[cut]);
    }
  }

  /** The one row that is underway has been recovered. */
  lemma Recovers(d0: Disk, before: seq<Row>, d: Disk, rows: seq<Row>, d': Disk, row: Row, units: seq<Unit>, cut: nat)
    requires AllSeparate(units) && Recovering(d0, before, d, rows, units, cut, cut)
    requires OnlyOps(d, d', units[cut].ops) && Kept(d0, d', units[cut].ops)
    requires Settled(d0, before[cut].catalogue, d', row.catalogue, row.status, units[cut])
    requires NothingReplaced(d0, d', units[cut].ops)
    ensures Recovering(d0, before, d', rows[cut := row], units, cut, cut + 1)
  {
    hide Recoverable, Ready, Progress;
    CutChanges(d0, before, d, rows, d', row, units, cut);
  }

  /** Whatever happens at the ends of `cut`, the other titles stand as they did. */
  lemma CutChanges(d0: Disk, before: seq<Row>, d: Disk, rows: seq<Row>, d': Disk, row: Row, units: seq<Unit>, cut: nat)
    requires AllSeparate(units) && cut < |units| && Progress(d0, before, d, rows, units, cut, cut)
    requires OnlyOps(d, d', units[cut].ops) && Kept(d0, d', units[cut].ops) && NothingReplaced(d0, d', units[cut].ops)
    ensures Progress(d0, before, d', rows[cut := row], units, cut, cut)
  {
    hide Stands, OnlyOps, Distinct, Kept, NothingReplaced, SameEnds, Separate;
    forall i | 0 <= i < |units| && i != cut
      ensures if i < cut then Over(d0, before[i], d', rows[i], units[i]) else Waiting(d0, before[i], d', rows[i], units[i])
    {
      assert Separate(units[i], units[cut]) && Distinct(units[i].ops);
      OthersUntouched(d, d', units[cut], units[i]);
      if i < cut {
        StandsStill(d0, before[i].catalogue, d, d', rows[i].catalogue, rows[i].status, units[i]);
      } else {
        StillWaiting(d0, d, d', units[i]);
      }
    }
  }

  /** A ready title replaces nothing, having had nothing at its destinations. */
  lemma ReadyReplacesNothing(d0: Disk, d: Disk, u: Unit)
    requires Ready(d0, u.ops)
    ensures NothingReplaced(d0, d, u.ops)
  {
  }

  /** The rows with those still pending among the first k now skipped. */
  function SkippedTo(rows: seq<Row>, k: nat): (r: seq<Row>)
    requires k <= |rows|
    ensures |r| == |rows|
    ensures forall i :: 0 <= i < |rows| ==>
              r[i] == if i < k && rows[i].status == Pending then Row(Skipped, rows[i].catalogue) else rows[i]
  {
    if k == 0 then rows
    else
      var r := SkippedTo(rows, k - 1);
      if rows[k - 1].status == Pending then r[k - 1 := Row(Skipped, rows[k - 1].catalogue)] else r
  }

  /** Once pending rows are skipped, every title is resolved. */
  lemma AllAreResolved(d0: Disk, before: seq<Row>, d: Disk, rows: seq<Row>, units: seq<Unit>, cut: nat)
    requires Recovering(d0, before, d, rows, units, cut, |units|)
    requires forall i :: 0 <= i < |before| ==> before[i].status == Pending
    ensures AllResolved(d0, before, d, SkippedTo(rows, |rows|), units)
  {
    hide Recoverable, Stands, Ready, Over, Waiting, Resolved, AllUnmoved, Kept, NothingReplaced, SkippedTo;
    forall i | 0 <= i < |units| ensures Resolved(d0, before[i], d, SkippedTo(rows, |rows|)[i], units[i]) {
      if i < cut {
        assert Over(d0, before[i], d, rows[i], units[i]);
      } else if i > cut {
        assert Waiting(d0, before[i], d, rows[i], units[i]);
      }
      SkippedIsResolved(d0, before[i], d, rows[i], units[i]);
    }
  }

  /** Over, or resolved already, or pending and untouched, and then skipped. */
  lemma SkippedIsResolved(d0: Disk, before: Row, d: Disk, row: Row, u: Unit)
    requires before.status == Pending
    requires
      || Over(d0, before, d, row, u) || Waiting(d0, before, d, row, u)
      || (row.status != Pending && Resolved(d0, before, d, row, u))
      || (row.status == Pending && row.catalogue == before.catalogue && AllUnmoved(d0, d, u.ops))
    ensures Resolved(d0, before, d, if row.status == Pending then Row(Skipped, row.catalogue) else row, u)
  {
    hide Stands;
    if Waiting(d0, before, d, row, u) {
      assert AllUnmoved(d0, d, u.ops);
    }
  }

  /**
   RecoverMoves after a crash in the turn of title `cut`: rows underway are recovered, then pending ones
   are skipped. Undisturbed, every title of the request is then resolved. Disturbed or stopped again,
   nothing of `cut` is lost. Disturbed, the other rows are dealt with all the same, and what is not put
   back of `cut`, if it is undone, is no more than the steps that failed. Stopped without a fault, the
   request can be recovered again exactly if CanGoOn holds of `cut`, as it does of a planned title, on
   one device and while not undoing.
   */
  method RecoverMoves(drive: Drive, units: seq<Unit>, dbs: seq<Database>, ghost d0: Disk, ghost before: seq<Row>, ghost cut: nat)
    returns (ok: bool, ghost undoing: bool)
    requires |units| == |dbs| == |before| && AllSeparate(units)
    requires forall i, j :: 0 <= i < j < |dbs| ==> dbs[i] != dbs[j]
    requires forall i :: 0 <= i < |before| ==> before[i].status == Pending
    requires Interrupted(d0, before, drive.disk, Rows(dbs), units, cut)
    modifies drive, dbs
    ensures !ok && cut < |dbs| ==> drive.stops + dbs[cut].stops == old(drive.stops) + old(dbs[cut].stops) + 1
    ensures cut < |units| && Kept(d0, drive.disk, units[cut].ops)
    ensures ok && drive.faults == old(drive.faults) && dbs[cut].faults == old(dbs[cut].faults) ==>
              && AllResolved(d0, before, drive.disk, Rows(dbs), units)
              && (forall i :: 0 <= i < |dbs| ==> dbs[i].status == Answered(old(drive.disk), old(dbs[i].status), units[i]))
    ensures ok ==> forall i :: 0 <= i < |dbs| && (i != cut || !Underway(old(dbs[cut].status))) ==>
                     dbs[i].status == Answered(old(drive.disk), old(dbs[i].status), units[i])
    ensures ok && Underway(old(dbs[cut].status)) ==>
              || dbs[cut].status == Moved
              || (dbs[cut].status == Failed && dbs[cut].faults > old(dbs[cut].faults))
              || ((dbs[cut].status == RolledBack || dbs[cut].status == Failed)
                  && NotUndone(old(drive.disk), drive.disk, units[cut].ops, 0) <= drive.faults - old(drive.faults))
    ensures !ok && drive.faults == old(drive.faults) && dbs[cut].faults == old(dbs[cut].faults) ==>
              && (Interrupted(d0, before, drive.disk, Rows(dbs), units, cut)
                  <==> CanGoOn(d0, drive.disk, dbs[cut].status, units[cut]))
              && (!undoing || drive.oneDevice || Planned(d0, units[cut].ops) ==>
                    CanGoOn(d0, drive.disk, dbs[cut].status, units[cut]))
  {
    hide Answered, NotUndone, EndsAs, NotBack;
    hide Planned, CanGoOn, Progress, Interrupted, Recovering, AllSeparate, AllResolved, SkippedTo, Rows, Kept, OnlyOps;
    hide Recoverable, Settled, Ready, Distinct;
    ghost var d1, rows1 := drive.disk, Rows(dbs);
    BeginsRecovering(d0, before, d1, rows1, units, cut);
    WhatIsKnown(d0, before, d1, rows1, units, cut);
    ghost var f, g := drive.faults, dbs[cut].faults;
    for i := 0 to |units|
      invariant forall j :: 0 <= j < |dbs| && j != cut ==> Row(dbs[j].status, dbs[j].catalogue) == rows1[j]
      invariant i > cut ==> EndsAs(rows1[cut].status, dbs[cut].status, d1, drive.disk, units[cut], drive.faults - f, dbs[cut].faults - g)
      invariant Kept(d0, drive.disk, units[cut].ops)
      invariant i <= cut ==> drive.disk == d1 && Rows(dbs) == rows1 && drive.faults == f && dbs[cut].faults == g
      invariant drive.faults == f && dbs[cut].faults == g ==>
                  Recovering(d0, before, drive.disk, Rows(dbs), units, cut, i)
      invariant drive.faults >= f && dbs[cut].faults >= g
      invariant drive.stops + dbs[cut].stops == old(drive.stops) + old(dbs[cut].stops)
    {
      ghost var d, rows := drive.disk, Rows(dbs);
      if Underway(dbs[i].status) {
        var out := RecoverRow(drive, dbs[i], units[i], d0, before[i].catalogue);
        ItEndsAs(rows[i].status, dbs[i].status, out, d, drive.disk, units[i], drive.faults - f, dbs[i].faults - g);
        ghost var row := Row(dbs[i].status, dbs[i].catalogue);
        assert Rows(dbs) == rows[i := row];
        if out.Crashed? {
          StillInterrupted(d0, before, d, rows, drive.disk, row, units, cut);
          return false, out.undoing;
        }
        if drive.faults == f && dbs[cut].faults == g {
          ReadyReplacesNothing(d0, drive.disk, units[cut]);
          Recovers(d0, before, d, rows, drive.disk, row, units, cut);
        }
      } else {
        NotUnderway(rows[i].status, d, units[i]);
        if drive.faults == f && dbs[cut].faults == g {
          PassOver(d0, before, d, rows, units, cut, i);
        }
      }
    }
    ghost var rows2, d2 := Rows(dbs), drive.disk;
    SkipPending(dbs);
    if drive.faults == f && dbs[cut].faults == g {
      AllAreResolved(d0, before, d2, rows2, units, cut);
    }
    AllEndAs(rows1, rows2, d1, d2, units, cut, drive.faults - f, dbs[cut].faults - g);
    return true, false;
  }

  /** How a row that recovery has looked at ends: as it was if it was not underway, else as RecoverRow says. */
  ghost predicate EndsAs(was: Status, s: Status, d: Disk, d': Disk, u: Unit, faults: int, dbFaults: int) {
    if !Underway(was) then s == was
    else
      && (faults == 0 && dbFaults == 0 ==> s == Answered(d, was, u))
      && (s == Moved || s == RolledBack || s == Failed)
      && (s != Moved ==> (s == Failed && dbFaults > 0) || NotUndone(d, d', u.ops, 0) <= faults)
  }

  lemma ItEndsAs(was: Status, s: Status, out: Outcome, d: Disk, d': Disk, u: Unit, faults: int, dbFaults: int)
    requires was == Moving || was == FsDone
    requires s == Moved || s == RolledBack || s == Failed || !out.Finished?
    requires out.Finished? && s != Moved ==>
               if was == Moving && (out.stuck || s == RolledBack) then NotUndone(d, d', u.ops, 0) <= faults else dbFaults > 0
    requires out.Finished? ==> s == out.status
    requires out.Finished? && s == RolledBack ==> was == Moving
    requires out.Finished? && faults == 0 && dbFaults == 0 ==>
               && (was == FsDone ==> s == Moved)
               && (was == Moving ==> s == if u.ops != [] && forall i :: 0 <= i < |u.ops| ==> u.ops[i].dst in d then Moved else RolledBack)
    ensures out.Finished? ==> EndsAs(was, s, d, d', u, faults, dbFaults)
  {
    AnsweredAs(d, was, u);
  }

  lemma NotUnderway(s: Status, d: Disk, u: Unit)
    requires !Underway(s)
    ensures EndsAs(s, s, d, d, u, 0, 0)
  {
  }

  /** How the rows of the request end once pending ones are skipped. */
  lemma AllEndAs(rows: seq<Row>, rows': seq<Row>, d: Disk, d': Disk, units: seq<Unit>, cut: nat, faults: int, dbFaults: int)
    requires cut < |rows| == |rows'| == |units|
    requires forall i :: 0 <= i < |rows| && i != cut ==> rows'[i] == rows[i] && !Underway(rows[i].status)
    requires EndsAs(rows[cut].status, rows'[cut].status, d, d', units[cut], faults, dbFaults)
    ensures var after := SkippedTo(rows', |rows'|);
            && (forall i :: 0 <= i < |rows| && (i != cut || !Underway(rows[cut].status) || (faults == 0 && dbFaults == 0)) ==>
                  after[i].status == Answered(d, rows[i].status, units[i]))
            && (Underway(rows[cut].status) ==>
                  || after[cut].status == Moved || (after[cut].status == Failed && dbFaults > 0)
                  || ((after[cut].status == RolledBack || after[cut].status == Failed) && NotUndone(d, d', units[cut].ops, 0) <= faults))
  {
    hide SkippedTo, NotUndone;
    forall i | 0 <= i < |rows|
      ensures Answered(d, rows[i].status, units[i])
              == if rows[i].status == Pending then Skipped
                 else if Underway(rows[i].status) then Answered(d, rows[i].status, units[i])
                 else rows[i].status
    {
      AnsweredAs(d, rows[i].status, units[i]);
    }
  }

  /** Stopped again, the request can be recovered again if and only if its title can. */
  lemma StillInterrupted(d0: Disk, before: seq<Row>, d: Disk, rows: seq<Row>, d': Disk, row: Row, units: seq<Unit>, cut: nat)
    requires AllSeparate(units) && Interrupted(d0, before, d, rows, units, cut)
    requires OnlyOps(d, d', units[cut].ops) && Kept(d0, d', units[cut].ops)
    ensures Recoverable(d0, before[cut].catalogue, d', row.catalogue, row.status, units[cut]) ==>
              Interrupted(d0, before, d', rows[cut := row], units, cut)
    ensures Interrupted(d0, before, d', rows[cut := row], units, cut) ==>
              Recoverable(d0, before[cut].catalogue, d', row.catalogue, row.status, units[cut]) || CanGoOn(d0, d', row.status, units[cut])
  {
    hide Recoverable, Stands, SameEnds, OnlyOps, Kept;
    ReadyReplacesNothing(d0, d', units[cut]);
    CutChanges(d0, before, d, rows, d', row, units, cut);
  }

  lemma WhatIsKnown(d0: Disk, before: seq<Row>, d: Disk, rows: seq<Row>, units: seq<Unit>, cut: nat)
    requires AllSeparate(units) && Interrupted(d0, before, d, rows, units, cut)
    requires forall i :: 0 <= i < |before| ==> before[i].status == Pending
    ensures cut < |units| && |rows| == |before| == |units| && Distinct(units[cut].ops)
    ensures Ready(d0, units[cut].ops) && units[cut].dest != "" && Kept(d0, d, units[cut].ops)
    ensures Underway(rows[cut].status) ==>
              Recoverable(d0, before[cut].catalogue, d, rows[cut].catalogue, rows[cut].status, units[cut])
    ensures forall i :: 0 <= i < |units| && i != cut ==> !Underway(rows[i].status)
  {
    hide Recoverable, Ready, Stands, Kept;
    BeginsRecovering(d0, before, d, rows, units, cut);
  }

  /** The one statement that marks every pending row of the job as skipped. */
  method SkipPending(dbs: seq<Database>)
    requires forall i, j :: 0 <= i < j < |dbs| ==> dbs[i] != dbs[j]
    modifies dbs
    ensures Rows(dbs) == SkippedTo(old(Rows(dbs)), |dbs|)
    ensures forall i :: 0 <= i < |dbs| ==> dbs[i].faults == old(dbs[i].faults)
  {
    hide Rows, SkippedTo;
    ghost var rows := Rows(dbs);
    NoneSkipped(rows);
    for i := 0 to |dbs|
      invariant Rows(dbs) == SkippedTo(rows, i) && forall j :: 0 <= j < |dbs| ==> dbs[j].faults == old(dbs[j].faults)
    {
      ghost var was := Rows(dbs);
      if dbs[i].status == Pending {
        dbs[i].status := Skipped;
      }
      assert Rows(dbs) == was[i := Row(dbs[i].status, dbs[i].catalogue)];
      OneMoreSkipped(rows, i);
    }
  }

  lemma NoneSkipped(rows: seq<Row>)
    ensures SkippedTo(rows, 0) == rows
  {
  }

  lemma OneMoreSkipped(rows: seq<Row>, i: nat)
    requires i < |rows|
    ensures SkippedTo(rows, i + 1)
            == SkippedTo(rows, i)[i := if rows[i].status == Pending then Row(Skipped, rows[i].catalogue) else rows[i]]
  {
  }
}
