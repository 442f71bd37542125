/**
 From plan to execution: what the planner of move_plan.go promises is what the executor of move_job.go
 asks for, and what it records is where the files arrive. Paths are written out as strings here.
 */
module MoveRequest {
  import C = Collections
  import F = MoveFs
  import J = MoveJob
  import P = MovePlan
  import R = MoveRun

  /** filepath.Join of a library's folder and a path below it. */
  function Joined(root: string, rel: P.Rel): string {
    if rel == [] then root else Joined(root, P.Parent(rel)) + ("/" + P.Base(rel))
  }

  /** No component is empty or has a slash. */
  predicate Plain(rel: P.Rel) {
    forall i :: 0 <= i < |rel| ==> rel[i] != "" && '/' !in rel[i]
  }

  function Place(root: string, rel: P.Rel): F.Path
    requires rel != []
  {
    F.Entry(Joined(root, P.Parent(rel)), P.Base(rel))
  }

  predicate Named(ops: seq<P.Op>) {
    forall i :: 0 <= i < |ops| ==> ops[i].src != [] && ops[i].dst != [] && Plain(ops[i].src) && Plain(ops[i].dst)
  }

  /** The journaled operations of a plan from one library's folder to another's. */
  function Ops(ops: seq<P.Op>, from: string, to: string): (r: seq<J.Op>)
    requires Named(ops)
    ensures |r| == |ops|
    ensures forall i :: 0 <= i < |ops| ==> r[i] == J.Op(Place(from, ops[i].src), Place(to, ops[i].dst))
  {
    if ops == [] then []
    else
      var n := |ops| - 1;
      Ops(ops[..n], from, to) + [J.Op(Place(from, ops[n].src), Place(to, ops[n].dst))]
  }

  lemma {:induction false} RootFirst(root: string, rel: P.Rel)
    ensures |Joined(root, rel)| >= |root| + |rel|
  {
    if rel != [] {
      RootFirst(root, P.Parent(rel));
    }
  }

  lemma {:induction false} OnePath(root: string, a: P.Rel, b: P.Rel)
    requires Plain(a) && Plain(b) && Joined(root, a) == Joined(root, b)
    ensures a == b
  {
    RootFirst(root, a);
    RootFirst(root, b);
    if a != [] && b != [] {
      C.LastSeparator('/', Joined(root, P.Parent(a)), P.Base(a), Joined(root, P.Parent(b)), P.Base(b));
      OnePath(root, P.Parent(a), P.Parent(b));
      assert a == P.Parent(a) + [P.Base(a)] && b == P.Parent(b) + [P.Base(b)];
    }
  }

  lemma OnePlace(root: string, a: P.Rel, b: P.Rel)
    requires a != [] && b != [] && Plain(a) && Plain(b)
    ensures Place(root, a) == Place(root, b) <==> a == b
  {
    if Place(root, a) == Place(root, b) {
      OnePath(root, P.Parent(a), P.Parent(b));
      assert a == P.Parent(a) + [P.Base(a)] && b == P.Parent(b) + [P.Base(b)];
    }
  }

  /** onDisk is what exists below the destination's folder. */
  ghost predicate Sees(onDisk: set<P.Rel>, d: F.Disk, to: string) {
    forall rel: P.Rel :: rel != [] && Plain(rel) && Place(to, rel) in d ==> rel in onDisk
  }

  /** What is asked of the sources of a planned title: named, and there. */
  ghost predicate SourcesThere(ops: seq<P.Op>, from: string, d: F.Disk) {
    Named(ops) && forall k :: 0 <= k < |ops| ==> Place(from, ops[k].src) in d
  }

  /** Planned destinations are different entries, and free. */
  lemma DestinationsDiffer(plans: seq<P.Plan>, i: nat, k: nat, j: nat, l: nat, to: string)
    requires i < |plans| && j < |plans| && k < |plans[i].ops| && l < |plans[j].ops| && (i < j || (i == j && k < l))
    requires P.AllApart(P.AllOps(plans)) && Named(plans[i].ops) && Named(plans[j].ops)
    ensures Place(to, plans[i].ops[k].dst) != Place(to, plans[j].ops[l].dst)
  {
    P.ApartAt(plans, i, k, j, l);
    OnePlace(to, plans[i].ops[k].dst, plans[j].ops[l].dst);
  }

  lemma DestinationFree(plans: seq<P.Plan>, i: nat, k: nat, to: string, onDisk: set<P.Rel>, d: F.Disk)
    requires i < |plans| && k < |plans[i].ops| && P.NoneOnDisk(P.AllOps(plans), onDisk)
    requires Named(plans[i].ops) && Sees(onDisk, d, to)
    ensures Place(to, plans[i].ops[k].dst) !in d
  {
    P.FreeAt(plans, onDisk, i, k);
  }

  /** The operations planned for a title of a request are what the executor asks for, if their sources exist and differ. */
  lemma PlannedIsReady(plans: seq<P.Plan>, i: nat, from: string, to: string, onDisk: set<P.Rel>, d: F.Disk)
    requires i < |plans| && P.AllApart(P.AllOps(plans)) && P.NoneOnDisk(P.AllOps(plans), onDisk) && Sees(onDisk, d, to)
    requires SourcesThere(plans[i].ops, from, d)
    requires forall j, k :: 0 <= j < k < |plans[i].ops| ==> plans[i].ops[j].src != plans[i].ops[k].src
    ensures J.Distinct(Ops(plans[i].ops, from, to)) && J.Ready(d, Ops(plans[i].ops, from, to))
  {
    hide P.AllOps, P.AllApart, P.NoneOnDisk, Sees, Joined, Plain;
    var ops := plans[i].ops;
    forall k | 0 <= k < |ops| ensures Place(to, ops[k].dst) !in d {
      DestinationFree(plans, i, k, to, onDisk, d);
    }
    forall j, k | 0 <= j < k < |ops|
      ensures Place(from, ops[j].src) != Place(from, ops[k].src) && Place(to, ops[j].dst) != Place(to, ops[k].dst)
    {
      OnePlace(from, ops[j].src, ops[k].src);
      DestinationsDiffer(plans, i, j, i, k, to);
    }
  }

  /** The videos of a title and their sidecars are regular files, as the planner finds them. */
  ghost predicate FilesAreRegular(u: P.Unit, from: string, d: F.Disk) {
    forall src: P.Rel :: src != [] && P.FileOfTitle(u, src) && Place(from, src) in d ==> F.OnePiece(d[Place(from, src)])
  }

  /** A plan moves one entry, or regular files: no crash finds one of its put-backs half deleted. */
  lemma PlansArePlanned(u: P.Unit, plan: P.Plan, from: string, to: string, d: F.Disk)
    requires P.InShape(u, plan) && Named(plan.ops) && FilesAreRegular(u, from, d)
    ensures J.Planned(d, Ops(plan.ops, from, to))
  {
    hide P.FileOfTitle, Plain, Joined;
    if |plan.ops| != 1 {
      forall k | 0 <= k < |plan.ops| ensures J.MovesOnePiece(d, Ops(plan.ops, from, to)[k]) {
        assert P.FileOfTitle(u, plan.ops[k].src);
      }
    }
  }

  /** Titles of one request, each from its own library, do not get in each other's way if their sources differ. */
  lemma PlannedAreSeparate(plans: seq<P.Plan>, i: nat, j: nat, from: string, other: string, to: string,
                           onDisk: set<P.Rel>, d: F.Disk, u: J.Unit, v: J.Unit)
    requires i < j < |plans| && P.AllApart(P.AllOps(plans)) && P.NoneOnDisk(P.AllOps(plans), onDisk) && Sees(onDisk, d, to)
    requires SourcesThere(plans[i].ops, from, d) && SourcesThere(plans[j].ops, other, d)
    requires u.ops == Ops(plans[i].ops, from, to) && v.ops == Ops(plans[j].ops, other, to)
    requires forall k, l :: 0 <= k < |u.ops| && 0 <= l < |v.ops| ==> u.ops[k].src != v.ops[l].src
    ensures R.Separate(u, v) && R.Separate(v, u)
  {
    hide P.AllOps, P.AllApart, P.NoneOnDisk, Sees, Joined, Plain;
    forall k, l | 0 <= k < |u.ops| && 0 <= l < |v.ops|
      ensures u.ops[k].dst != v.ops[l].dst && u.ops[k].src != v.ops[l].dst && u.ops[k].dst != v.ops[l].src
    {
      DestinationsDiffer(plans, i, k, j, l, to);
      DestinationFree(plans, i, k, to, onDisk, d);
      DestinationFree(plans, j, l, to, onDisk, d);
    }
  }

  /** The name of a file inside the entry that is moved: of the entry itself, or below it. */
  function Inside(rest: P.Rel): string {
    Joined(F.Itself, rest)
  }

  /** The file at rel, which is, or is inside, the entry at `at`, has that content. */
  ghost predicate HoldsFile(d: F.Disk, root: string, at: P.Rel, rel: P.Rel, content: seq<F.byte>) {
    && at != [] && at <= rel && Place(root, at) in d
    && Inside(rel[|at|..]) in d[Place(root, at)] && d[Place(root, at)][Inside(rel[|at|..])] == content
  }

  /** Some operation takes the file with its content to where it is recorded. */
  ghost predicate Arrives(op: P.Op, from: string, to: string, d0: F.Disk, d1: F.Disk, rel: P.Rel, recorded: P.Rel) {
    && op.src <= rel && op.dst <= recorded
    && forall content :: HoldsFile(d0, from, op.src, rel, content) ==> HoldsFile(d1, to, op.dst, recorded, content)
  }

  /** When a planned title has moved, each of its catalogued files is where the plan recorded it. */
  lemma FilesArrive(u: P.Unit, plan: P.Plan, from: string, to: string, d0: F.Disk, d1: F.Disk, i: nat)
    requires P.RecordsWhatHappens(u, plan) && Named(plan.ops) && i < |u.files|
    requires J.AllAtDst(d0, d1, Ops(plan.ops, from, to))
    ensures exists op :: op in plan.ops && Arrives(op, from, to, d0, d1, u.files[i].rel, plan.files[i].rel)
  {
    var rel, recorded := u.files[i].rel, plan.files[i].rel;
    var op :| op in plan.ops && P.Carries(op, rel, recorded);
    var k :| 0 <= k < |plan.ops| && plan.ops[k] == op;
    assert J.AtDst(d0, d1, Ops(plan.ops, from, to)[k]);
    assert recorded[|op.dst|..] == rel[|op.src|..];
    assert Arrives(op, from, to, d0, d1, rel, recorded);
  }
}
