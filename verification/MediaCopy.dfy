/**
 Copying one remote title to disk (internal/jellyfin/mediacopy.go: startCopy, runCopy, copyOnce,
 LocalCopy, removeCopy, sweepCopies), as the steps its goroutines interleave.

 The remote file never changes. A server that resumes says truthfully where its body starts and how
 long the file is; a body of unknown length is whole when it ends.
 */
module MediaCopy {
  import opened Collections

  type Bytes = seq<int>

  /** The title's record; times and error texts do not matter here. */
  datatype Meta = Meta(size: int, done: bool)

  /** Where a running copy stands: between attempts, or inside copyOnce. */
  datatype Writer =
    | Waiting
    | Asked(have: nat)                                  // request sent for the bytes from `have`
    | Opening(have: nat, total: int)                    // answer accepted; total is -1 when not reported
    | Streaming(have: nat, total: int, written: nat)
    | Renamed(size: nat)                                // .part became .media; the record is next
    | Finished

  /**
   part, media and meta are the files on disk. copying and writers are lost in a restart. doomed: the
   sweeper has seen files without a record and is about to remove them.
   */
  datatype State = State(part: Option<Bytes>, media: Option<Bytes>, meta: Option<Meta>,
                         copying: bool, writers: map<nat, Writer>, doomed: bool)

  /** LocalCopy: the finished copy, if there is one. */
  function LocalCopy(s: State): Option<Bytes> {
    if s.meta.None? || !s.meta.value.done then None
    else if s.media.None? || (s.meta.value.size > 0 && |s.media.value| != s.meta.value.size) then None
    else s.media
  }

  function Have(part: Option<Bytes>): nat {
    if part.Some? then |part.value| else 0
  }

  ghost predicate At(s: State, p: nat, w: Writer) {
    p in s.writers && s.writers[p] == w
  }

  // ---------------------------------------------------------------------
  // Steps
  // ---------------------------------------------------------------------

  /** startCopy: not while copying, and not when done. */
  ghost predicate Start(s: State, s': State, p: nat, size: int) {
    && !s.copying && !(s.meta.Some? && s.meta.value.done) && p !in s.writers
    && s' == s.(meta := Some(Meta(size, false)), copying := true, writers := s.writers[p := Waiting])
  }

  /** An attempt: the size of .part is where to resume. */
  ghost predicate Ask(s: State, s': State, p: nat) {
    && At(s, p, Waiting) && s.meta.Some?
    && s' == s.(writers := s.writers[p := Asked(Have(s.part))])
  }

  function Resized(meta: Option<Meta>, total: int): Option<Meta> {
    if meta.Some? && total > 0 then Some(meta.value.(size := total)) else meta
  }

  /** 206: the body starts at `start`; anything but the place asked for is an error. */
  ghost predicate AnswerPartial(remote: Bytes, s: State, s': State, p: nat, start: nat) {
    && p in s.writers && s.writers[p].Asked?
    && s' == if start == s.writers[p].have
             then s.(meta := Resized(s.meta, |remote|), writers := s.writers[p := Opening(start, |remote|)])
             else s.(writers := s.writers[p := Waiting])
  }

  /** 200: no resume support, the copy starts over. */
  ghost predicate AnswerWhole(remote: Bytes, s: State, s': State, p: nat, known: bool) {
    && p in s.writers && s.writers[p].Asked?
    && var total := if known then |remote| else -1;
       s' == s.(meta := Resized(s.meta, total), writers := s.writers[p := Opening(0, total)])
  }

  /** OpenFile: truncating at 0, else appending; both create a missing file. */
  ghost predicate Open(s: State, s': State, p: nat) {
    && p in s.writers && s.writers[p].Opening?
    && var w := s.writers[p];
       s' == s.(part := if w.have == 0 || s.part.None? then Some([]) else s.part,
                writers := s.writers[p := Streaming(w.have, w.total, 0)])
  }

  /** One chunk of the body. A file removed meanwhile swallows it. */
  ghost predicate Write(remote: Bytes, s: State, s': State, p: nat, n: nat) {
    && p in s.writers && s.writers[p].Streaming?
    && var w := s.writers[p];
       var at := w.have + w.written;
       && at + n <= |remote|
       && s' == s.(part := if s.part.Some? then Some(s.part.value + remote[at..at + n]) else None,
                   writers := s.writers[p := w.(written := w.written + n)])
  }

  /** The attempt fails: no answer, no space, a broken body. */
  ghost predicate Fail(s: State, s': State, p: nat) {
    && p in s.writers && !s.writers[p].Finished?
    && s' == s.(writers := s.writers[p := Waiting])
  }

  /** The body ends: a short one is an error, else .part is renamed to .media if it is still there. */
  ghost predicate End(remote: Bytes, s: State, s': State, p: nat) {
    && p in s.writers && s.writers[p].Streaming?
    && var w := s.writers[p];
       && (w.total < 0 ==> w.have + w.written == |remote|)
       && s' == if (w.total >= 0 && w.have + w.written != w.total) || s.part.None?
                then s.(writers := s.writers[p := Waiting])
                else s.(part := None, media := s.part, writers := s.writers[p := Renamed(w.have + w.written)])
  }

  ghost predicate Record(s: State, s': State, p: nat) {
    && p in s.writers && s.writers[p].Renamed? && s.meta.Some?
    && s' == s.(meta := Some(Meta(s.writers[p].size, true)), writers := s.writers[p := Finished])
  }

  /** runCopy ends: done, out of attempts, or no longer wanted. */
  ghost predicate Leave(s: State, s': State, p: nat) {
    && p in s.writers && (s.writers[p].Finished? || s.writers[p].Waiting?)
    && s' == s.(copying := false, writers := s.writers - {p})
  }

  /** removeCopy: not while copying; each removal may fail. */
  ghost predicate Remove(s: State, s': State, part: bool, media: bool, record: bool) {
    && !s.copying
    && s' == s.(part := if part then None else s.part, media := if media then None else s.media,
                meta := if record then None else s.meta)
  }

  /** sweepCopies finds files whose record is missing... */
  ghost predicate SweepLooks(s: State, s': State) {
    s.meta.None? && s' == s.(doomed := true)
  }

  /**
   ...and removes them. The code removes .part whatever the title's state; a guard tells in which
   states a sweeper with more care would.
   */
  ghost predicate SweepRemoves(s: State, s': State, part: bool, media: bool, guard: State -> bool) {
    && s.doomed && (part ==> guard(s))
    && s' == s.(part := if part then None else s.part, media := if media then None else s.media, doomed := false)
  }

  /** A restart of ViewDock: only the files remain. */
  ghost predicate Restart(s: State, s': State) {
    s' == s.(copying := false, writers := map[], doomed := false)
  }

  ghost predicate WriterStep(remote: Bytes, s: State, s': State, p: nat) {
    || Ask(s, s', p)
    || (exists start: nat :: AnswerPartial(remote, s, s', p, start))
    || (exists known :: AnswerWhole(remote, s, s', p, known))
    || Open(s, s', p)
    || (exists n: nat :: Write(remote, s, s', p, n))
    || Fail(s, s', p) || End(remote, s, s', p) || Record(s, s', p) || Leave(s, s', p)
  }

  ghost predicate Next(remote: Bytes, s: State, s': State, guard: State -> bool) {
    || (exists p, size :: Start(s, s', p, size))
    || (exists p :: WriterStep(remote, s, s', p))
    || (exists part, media, record :: Remove(s, s', part, media, record))
    || SweepLooks(s, s')
    || (exists part, media :: SweepRemoves(s, s', part, media, guard))
    || Restart(s, s')
  }

  // ---------------------------------------------------------------------
  // Runs
  // ---------------------------------------------------------------------

  ghost predicate PartOk(remote: Bytes, part: Option<Bytes>) {
    part.Some? ==> part.value <= remote
  }

  /** What a record says is done is the remote file, or has not its length. */
  ghost predicate MediaOk(remote: Bytes, media: Option<Bytes>, meta: Option<Meta>) {
    media.Some? ==>
      media.value <= remote && (meta.Some? && meta.value.done ==> meta.value.size == |remote| || media.value == remote)
  }

  /** What an earlier process may have left on disk. */
  ghost predicate Init(remote: Bytes, s: State) {
    PartOk(remote, s.part) && MediaOk(remote, s.media, s.meta) && !s.copying && s.writers == map[] && !s.doomed
  }

  ghost predicate IsRun(remote: Bytes, run: seq<State>, guard: State -> bool) {
    && |run| > 0 && Init(remote, run[0])
    && forall i :: 0 <= i < |run| - 1 ==> Next(remote, run[i], run[i + 1], guard)
  }

  function Last(run: seq<State>): State
    requires run != []
  {
    run[|run| - 1]
  }

  /** No title has two writers, and none when it is not being copied. */
  ghost predicate OneWriter(s: State) {
    && (!s.copying ==> s.writers == map[])
    && (forall p, q :: p in s.writers && q in s.writers ==> p == q)
    && (s.writers != map[] ==> s.meta.Some?)
  }

  lemma StepKeepsOneWriter(remote: Bytes, s: State, s': State, guard: State -> bool)
    requires OneWriter(s) && Next(remote, s, s', guard)
    ensures OneWriter(s')
  {
    if p :| WriterStep(remote, s, s', p) {
      assert s'.writers.Keys <= {p};
    }
  }

  /** While a title is being copied, no one but its writer, the sweeper and a restart does anything. */
  lemma WhoActs(remote: Bytes, s: State, s': State, guard: State -> bool)
    requires OneWriter(s) && s.copying && s.writers != map[] && Next(remote, s, s', guard)
    ensures
      || (exists p :: p in s.writers && WriterStep(remote, s, s', p))
      || (exists part, media :: SweepRemoves(s, s', part, media, guard))
      || Restart(s, s')
  {
    if p :| WriterStep(remote, s, s', p) {
      assert p in s.writers;
    }
  }

  /** Whatever the sweeper does, at most one writer exists in every state of every run. */
  lemma {:induction false} AlwaysOneWriter(remote: Bytes, run: seq<State>, guard: State -> bool)
    requires IsRun(remote, run, guard)
    ensures OneWriter(Last(run))
  {
    var n := |run| - 1;
    if n > 0 {
      AlwaysOneWriter(remote, run[..n], guard);
      StepKeepsOneWriter(remote, run[n - 1], run[n], guard);
    }
  }

  // ---------------------------------------------------------------------
  // The window
  // ---------------------------------------------------------------------

  /** The writer has measured .part and not opened it yet. */
  predicate Measured(w: Writer) {
    w.Asked? || w.Opening?
  }

  /** From byte h on the file goes on as it began. */
  ghost predicate Repeats(remote: Bytes, h: nat) {
    h <= |remote| && remote[h..] <= remote
  }

  /**
   Removing .part now would do harm: a writer has measured it and will append from there, and the
   file does not repeat itself there. With nothing measured it always does.
   */
  ghost predicate Harmful(remote: Bytes, s: State) {
    exists p :: p in s.writers && Measured(s.writers[p]) && !Repeats(remote, s.writers[p].have)
  }

  /** What a writer knows, if .part is removed only where it does no harm. */
  ghost predicate WriterOk(remote: Bytes, part: Option<Bytes>, w: Writer) {
    match w
    case Asked(have) => have <= |remote| && Matches(remote, part, have)
    case Opening(have, total) =>
      have <= |remote| && (have == 0 || Matches(remote, part, have)) && (total == |remote| || (total == -1 && have == 0))
    case Streaming(have, total, written) =>
      have + written <= |remote| && (total == |remote| || total == -1) && Written(remote, part, have, written)
    case Renamed(size) => size == |remote|
    case _ => true
  }

  /** .part ends at `have`, or it has been removed since and the file repeats itself there. */
  ghost predicate Matches(remote: Bytes, part: Option<Bytes>, have: nat) {
    have == Have(part) || (part.None? && Repeats(remote, have))
  }

  ghost predicate Written(remote: Bytes, part: Option<Bytes>, have: nat, written: nat)
    requires have + written <= |remote|
  {
    part.Some? ==>
      part.value == remote[..have + written] || (part.value == remote[have..have + written] && Repeats(remote, have))
  }

  ghost predicate Invariant(remote: Bytes, s: State) {
    && PartOk(remote, s.part) && MediaOk(remote, s.media, s.meta) && OneWriter(s)
    && (forall p :: p in s.writers ==> WriterOk(remote, s.part, s.writers[p]))
    && (forall p :: p in s.writers && !s.writers[p].Finished? ==> !s.meta.value.done)
  }

  lemma ChunkExtends(remote: Bytes, part: Bytes, have: nat, written: nat, n: nat)
    requires have + written + n <= |remote| && Written(remote, Some(part), have, written)
    ensures Written(remote, Some(part + remote[have + written..have + written + n]), have, written + n)
    ensures part + remote[have + written..have + written + n] <= remote
  {
    var chunk, end := remote[have + written..have + written + n], have + written + n;
    if part == remote[..have + written] {
      assert part + chunk == remote[..end];
    } else {
      assert part + chunk == remote[have..end] == remote[have..][..written + n];
    }
  }

  /** Opening .part: emptied, created, or as it was measured. */
  lemma OpenKeeps(remote: Bytes, s: State, s': State, p: nat)
    requires Invariant(remote, s) && Open(s, s', p)
    ensures Invariant(remote, s')
  {
    assert WriterOk(remote, s.part, s.writers[p]);
    assert s'.writers.Keys == s.writers.Keys;
    assert WriterOk(remote, s'.part, s'.writers[p]);
  }

  lemma WriteKeeps(remote: Bytes, s: State, s': State, p: nat, n: nat)
    requires Invariant(remote, s) && Write(remote, s, s', p, n)
    ensures Invariant(remote, s')
  {
    assert WriterOk(remote, s.part, s.writers[p]);
    if s.part.Some? {
      ChunkExtends(remote, s.part.value, s.writers[p].have, s.writers[p].written, n);
    }
    assert s'.writers.Keys == s.writers.Keys;
    assert WriterOk(remote, s'.part, s'.writers[p]);
  }

  /** The body's end: what becomes .media is the remote file, or too short to be served. */
  lemma EndKeeps(remote: Bytes, s: State, s': State, p: nat)
    requires Invariant(remote, s) && End(remote, s, s', p)
    ensures Invariant(remote, s')
  {
    assert WriterOk(remote, s.part, s.writers[p]);
    assert s'.writers.Keys == s.writers.Keys;
    assert WriterOk(remote, s'.part, s'.writers[p]);
  }

  /** The steps of a writer that leave the files alone. */
  lemma TalkKeeps(remote: Bytes, s: State, s': State, p: nat)
    requires Invariant(remote, s) && s'.part == s.part && s'.media == s.media
    requires
      || Ask(s, s', p) || (exists start: nat :: AnswerPartial(remote, s, s', p, start))
      || (exists known :: AnswerWhole(remote, s, s', p, known)) || Fail(s, s', p) || Record(s, s', p) || Leave(s, s', p)
    ensures Invariant(remote, s')
  {
    assert WriterOk(remote, s.part, s.writers[p]);
    assert s'.writers.Keys <= {p};
    assert p in s'.writers ==> WriterOk(remote, s'.part, s'.writers[p]);
  }

  lemma WriterKeeps(remote: Bytes, s: State, s': State, p: nat)
    requires Invariant(remote, s) && WriterStep(remote, s, s', p)
    ensures Invariant(remote, s')
  {
    hide Invariant;
    if Open(s, s', p) {
      OpenKeeps(remote, s, s', p);
    } else if n: nat :| Write(remote, s, s', p, n) {
      WriteKeeps(remote, s, s', p, n);
    } else if End(remote, s, s', p) {
      EndKeeps(remote, s, s', p);
    } else {
      TalkKeeps(remote, s, s', p);
    }
  }

  /** .part was there and is no longer. */
  predicate Vanishes(s: State, s': State) {
    s.part.Some? && s'.part.None?
  }

  /** A removal that does no harm. */
  lemma SweepKeeps(remote: Bytes, s: State, s': State, part: bool, media: bool, guard: State -> bool)
    requires Invariant(remote, s) && SweepRemoves(s, s', part, media, guard)
    requires Vanishes(s, s') ==> !Harmful(remote, s)
    ensures Invariant(remote, s')
  {
    forall p | p in s'.writers ensures WriterOk(remote, s'.part, s'.writers[p]) {
      assert WriterOk(remote, s.part, s.writers[p]);
    }
  }

  lemma StepKeeps(remote: Bytes, s: State, s': State, guard: State -> bool)
    requires Invariant(remote, s) && Next(remote, s, s', guard) && (Vanishes(s, s') ==> !Harmful(remote, s))
    ensures Invariant(remote, s')
  {
    hide Harmful, WriterStep;
    if p :| WriterStep(remote, s, s', p) {
      WriterKeeps(remote, s, s', p);
    } else if part, media :| SweepRemoves(s, s', part, media, guard) {
      SweepKeeps(remote, s, s', part, media, guard);
    }
  }

  /** In no step of the run .part goes where that does harm. */
  ghost predicate DidNoHarm(remote: Bytes, run: seq<State>) {
    forall i :: 0 <= i < |run| - 1 && Vanishes(run[i], run[i + 1]) ==> !Harmful(remote, run[i])
  }

  /** In every state of such a run .part is a prefix of the remote file, and what LocalCopy serves is the remote file. */
  lemma {:induction false} RunKeeps(remote: Bytes, run: seq<State>, guard: State -> bool)
    requires IsRun(remote, run, guard) && DidNoHarm(remote, run)
    ensures Invariant(remote, Last(run)) && ServesRight(remote, Last(run))
  {
    hide Harmful, Next;
    var n := |run| - 1;
    if n > 0 {
      RunKeeps(remote, run[..n], guard);
      StepKeeps(remote, run[n - 1], run[n], guard);
    }
  }

  ghost predicate ServesRight(remote: Bytes, s: State) {
    LocalCopy(s).Some? ==> LocalCopy(s).value == remote
  }

  // ---------------------------------------------------------------------
  // A removal that does harm
  // ---------------------------------------------------------------------

  lemma Extend(remote: Bytes, run: seq<State>, s': State, guard: State -> bool) returns (longer: seq<State>)
    requires IsRun(remote, run, guard) && Next(remote, Last(run), s', guard)
    ensures IsRun(remote, longer, guard) && longer == run + [s']
  {
    longer := run + [s'];
    forall i | 0 <= i < |longer| - 1 ensures Next(remote, longer[i], longer[i + 1], guard) {
      if i < |run| - 1 {
        assert longer[i] == run[i] && longer[i + 1] == run[i + 1];
      }
    }
  }

  /** One more step of writer p. */
  lemma Writes(remote: Bytes, run: seq<State>, s': State, p: nat, guard: State -> bool) returns (longer: seq<State>)
    requires IsRun(remote, run, guard) && WriterStep(remote, Last(run), s', p)
    ensures IsRun(remote, longer, guard) && longer == run + [s']
  {
    longer := Extend(remote, run, s', guard);
  }

  /** The state with writer p at w, and that .part. */
  function With(s: State, p: nat, part: Option<Bytes>, w: Writer): State {
    s.(part := part, writers := s.writers[p := w])
  }

  /** A writer that is to resume at h opens what is there, and appends the rest of the file from h, or n bytes of it. */
  lemma Appends(remote: Bytes, run: seq<State>, p: nat, h: nat, n: nat, guard: State -> bool) returns (longer: seq<State>)
    requires IsRun(remote, run, guard) && 0 < h && h + n <= |remote|
    requires p in Last(run).writers && Last(run).writers[p] == Opening(h, |remote|)
    ensures IsRun(remote, longer, guard) && run <= longer
    ensures var s := Last(run);
            var before := if s.part.Some? then s.part.value else [];
            Last(longer) == With(s, p, Some(before + remote[h..h + n]), Streaming(h, |remote|, n))
  {
    var s := Last(run);
    var before := if s.part.Some? then s.part.value else [];
    var s1 := With(s, p, Some(before), Streaming(h, |remote|, 0));
    assert Open(s, s1, p);
    var r := Writes(remote, run, s1, p, guard);
    var s2 := With(s1, p, Some(before + remote[h..h + n]), Streaming(h, |remote|, n));
    assert Write(remote, s1, s2, p, n);
    longer := Writes(remote, r, s2, p, guard);
    assert s2.writers == s.writers[p := Streaming(h, |remote|, n)];
  }

  /** The attempt fails, and the next one is told to go on where .part ends. */
  lemma TriesAgain(remote: Bytes, run: seq<State>, p: nat, guard: State -> bool) returns (longer: seq<State>)
    requires IsRun(remote, run, guard) && remote != []
    requires p in Last(run).writers && Last(run).writers[p].Streaming? && Last(run).meta.Some?
    ensures IsRun(remote, longer, guard) && run <= longer
    ensures var s := Last(run);
            Last(longer) == With(s, p, s.part, Opening(Have(s.part), |remote|)).(meta := Resized(s.meta, |remote|))
  {
    var s := Last(run);
    var s1 := With(s, p, s.part, Waiting);
    assert Fail(s, s1, p);
    var r := Writes(remote, run, s1, p, guard);
    var s2 := With(s, p, s.part, Asked(Have(s.part)));
    assert s2.writers == s1.writers[p := Asked(Have(s.part))];
    assert Ask(s1, s2, p);
    r := Writes(remote, r, s2, p, guard);
    var s3 := With(s, p, s.part, Opening(Have(s.part), |remote|)).(meta := Resized(s.meta, |remote|));
    assert s3.writers == s2.writers[p := Opening(Have(s.part), |remote|)];
    assert AnswerPartial(remote, s2, s3, p, Have(s.part));
    longer := Writes(remote, r, s3, p, guard);
  }

  /** A body that has come to its end is renamed and recorded, whatever .part holds. */
  lemma Finishes(remote: Bytes, run: seq<State>, p: nat, h: nat, n: nat, guard: State -> bool) returns (longer: seq<State>)
    requires IsRun(remote, run, guard) && h + n == |remote|
    requires p in Last(run).writers && Last(run).writers[p] == Streaming(h, |remote|, n)
    requires Last(run).part.Some? && Last(run).meta.Some? && |Last(run).part.value| == |remote|
    ensures IsRun(remote, longer, guard) && run <= longer
    ensures LocalCopy(Last(longer)) == Last(run).part
  {
    var s := Last(run);
    var s1 := s.(part := None, media := s.part, writers := s.writers[p := Renamed(|remote|)]);
    assert End(remote, s, s1, p);
    var r := Writes(remote, run, s1, p, guard);
    var s2 := s1.(meta := Some(Meta(|remote|, true)), writers := s1.writers[p := Finished]);
    assert Record(s1, s2, p);
    longer := Writes(remote, r, s2, p, guard);
  }

  /** The state in the window, .part removed, and the server's answer come in. */
  lemma RemovedInTheWindow(remote: Bytes, run: seq<State>, p: nat, h: nat, guard: State -> bool) returns (longer: seq<State>)
    requires IsRun(remote, run, guard) && Invariant(remote, Last(run)) && Last(run).doomed && guard(Last(run))
    requires p in Last(run).writers && Measured(Last(run).writers[p]) && Last(run).writers[p].have == h && !Repeats(remote, h)
    ensures IsRun(remote, longer, guard) && run <= longer && 0 < h < |remote|
    ensures var s := Last(longer);
            p in s.writers && s.writers[p] == Opening(h, |remote|) && s.part.None? && s.meta.Some?
  {
    var s := Last(run);
    assert WriterOk(remote, s.part, s.writers[p]);
    WindowIsInside(remote, h);
    var s1 := s.(part := None, doomed := false);
    assert SweepRemoves(s, s1, true, false, guard);
    longer := Extend(remote, run, s1, guard);
    if s.writers[p].Asked? {
      var s2 := s1.(meta := Resized(s1.meta, |remote|), writers := s1.writers[p := Opening(h, |remote|)]);
      assert AnswerPartial(remote, s1, s2, p, h);
      longer := Writes(remote, longer, s2, p, guard);
    }
  }

  lemma WindowIsInside(remote: Bytes, h: nat)
    requires !Repeats(remote, h) && h <= |remote|
    ensures 0 < h < |remote|
  {
    assert remote[0..] == remote && remote[|remote|..] == [];
  }

  /** From a harmful removal that no other went before, a run goes on to serve the wrong bytes. */
  lemma GoesWrong(remote: Bytes, run: seq<State>, guard: State -> bool) returns (longer: seq<State>)
    requires IsRun(remote, run, guard) && DidNoHarm(remote, run)
    requires Last(run).doomed && guard(Last(run)) && Harmful(remote, Last(run))
    ensures IsRun(remote, longer, guard) && run <= longer && !ServesRight(remote, Last(longer))
  {
    hide Next, Invariant, Harmful;
    RunKeeps(remote, run, guard);
    var p, h := Resumer(remote, Last(run));
    longer := RemovedInTheWindow(remote, run, p, h, guard);
    var rest := |remote| - h;
    longer := Appends(remote, longer, p, h, rest, guard);
    longer := TriesAgain(remote, longer, p, guard);
    longer := Appends(remote, longer, p, rest, h, guard);
    longer := Finishes(remote, longer, p, rest, h, guard);
    WrongBytes(remote, h);
  }

  lemma Resumer(remote: Bytes, s: State) returns (p: nat, h: nat)
    requires Harmful(remote, s)
    ensures p in s.writers && Measured(s.writers[p]) && s.writers[p].have == h && !Repeats(remote, h)
  {
    p :| p in s.writers && Measured(s.writers[p]) && !Repeats(remote, s.writers[p].have);
    h := s.writers[p].have;
  }

  /** What .part then holds: the file from h on, and its last h bytes once more. */
  lemma WrongBytes(remote: Bytes, h: nat)
    requires 0 < h < |remote| && !Repeats(remote, h)
    ensures remote[h..] + remote[|remote| - h..] != remote
  {
    var wrong := remote[h..] + remote[|remote| - h..];
    assert remote[h..] == wrong[..|remote| - h];
  }

  // ---------------------------------------------------------------------
  // Exactly when LocalCopy is right
  // ---------------------------------------------------------------------

  /** The sweeper never comes to remove .part where that does harm. */
  ghost predicate NeverHarms(remote: Bytes, guard: State -> bool) {
    forall run :: IsRun(remote, run, guard) && Last(run).doomed && guard(Last(run)) ==> !Harmful(remote, Last(run))
  }

  /** While a writer has measured .part, no one but the sweeper makes it vanish. */
  lemma OnlyTheSweeper(remote: Bytes, s: State, s': State, guard: State -> bool)
    requires OneWriter(s) && Next(remote, s, s', guard) && Vanishes(s, s') && Harmful(remote, s)
    ensures s.doomed && guard(s)
  {
  }

  lemma PrefixIsRun(remote: Bytes, run: seq<State>, i: nat, guard: State -> bool)
    requires IsRun(remote, run, guard) && i < |run|
    ensures IsRun(remote, run[..i + 1], guard) && Last(run[..i + 1]) == run[i]
  {
  }

  /** Where a run did harm, the sweeper had come to do it. */
  lemma HarmIsTheSweepers(remote: Bytes, run: seq<State>, i: nat, guard: State -> bool)
    requires IsRun(remote, run, guard) && i < |run| - 1 && Vanishes(run[i], run[i + 1]) && Harmful(remote, run[i])
    ensures IsRun(remote, run[..i + 1], guard) && Last(run[..i + 1]) == run[i] && run[i].doomed && guard(run[i])
  {
    hide Next, Harmful, OneWriter;
    PrefixIsRun(remote, run, i, guard);
    AlwaysOneWriter(remote, run[..i + 1], guard);
    OnlyTheSweeper(remote, run[i], run[i + 1], guard);
  }

  /** The first time the sweeper comes to do harm. */
  lemma {:induction false} FirstHarm(remote: Bytes, run: seq<State>, guard: State -> bool) returns (first: seq<State>)
    requires IsRun(remote, run, guard) && Last(run).doomed && guard(Last(run)) && Harmful(remote, Last(run))
    ensures IsRun(remote, first, guard) && Last(first).doomed && guard(Last(first)) && Harmful(remote, Last(first))
    ensures DidNoHarm(remote, first)
    decreases |run|
  {
    hide Next, Harmful;
    first := run;
    if !DidNoHarm(remote, run) {
      var i :| 0 <= i < |run| - 1 && Vanishes(run[i], run[i + 1]) && Harmful(remote, run[i]);
      HarmIsTheSweepers(remote, run, i, guard);
      first := FirstHarm(remote, run[..i + 1], guard);
    }
  }

  ghost predicate AlwaysServesRight(remote: Bytes, guard: State -> bool) {
    forall run :: IsRun(remote, run, guard) ==> ServesRight(remote, Last(run))
  }

  /**
   LocalCopy serves only the remote file, in every run, if and only if the sweeper never comes to
   remove a .part that a copy has measured and not opened yet and after which the file does not
   go on as it began.
   */
  lemma RightIffNeverHarms(remote: Bytes, guard: State -> bool)
    ensures AlwaysServesRight(remote, guard) <==> NeverHarms(remote, guard)
  {
    hide Next, Harmful, ServesRight;
    if NeverHarms(remote, guard) {
      forall run | IsRun(remote, run, guard) ensures ServesRight(remote, Last(run)) {
        forall i | 0 <= i < |run| - 1 && Vanishes(run[i], run[i + 1]) ensures !Harmful(remote, run[i]) {
          if Harmful(remote, run[i]) {
            HarmIsTheSweepers(remote, run, i, guard);
          }
        }
        RunKeeps(remote, run, guard);
      }
    } else {
      var run :| IsRun(remote, run, guard) && Last(run).doomed && guard(Last(run)) && Harmful(remote, Last(run));
      run := FirstHarm(remote, run, guard);
      run := GoesWrong(remote, run, guard);
    }
  }

  /** The code's sweeper asks nothing. */
  predicate Always(s: State) {
    true
  }

  /** A sweeper that leaves .part alone while a copy has measured it and not opened it yet. */
  predicate OutsideTheWindow(s: State) {
    forall p :: p in s.writers && Measured(s.writers[p]) ==> s.writers[p].have == 0
  }

  predicate AllEqual(remote: Bytes) {
    forall i, j :: 0 <= i < j < |remote| ==> remote[i] == remote[j]
  }

  /** A file that goes on after its first byte as it began is one byte over and over. */
  lemma {:induction false} RepeatsFromOne(remote: Bytes, i: nat)
    requires Repeats(remote, 1) && i < |remote|
    ensures remote[i] == remote[0]
  {
    if i > 0 {
      RepeatsFromOne(remote, i - 1);
      assert remote[i] == remote[1..][i - 1];
    }
  }

  /** One byte is on disk without a record; the sweeper sees it, a copy starts and measures it. */
  lemma Doomed(remote: Bytes) returns (run: seq<State>)
    requires |remote| >= 2 && !Repeats(remote, 1)
    ensures IsRun(remote, run, Always) && Last(run).doomed && Harmful(remote, Last(run))
  {
    var s0 := State(Some(remote[..1]), None, None, false, map[], false);
    var s1 := s0.(doomed := true);
    var s2 := s1.(meta := Some(Meta(0, false)), copying := true, writers := map[0 := Waiting]);
    var s3 := s2.(writers := map[0 := Asked(1)]);
    assert Start(s1, s2, 0, 0);
    assert Ask(s2, s3, 0) && WriterStep(remote, s2, s3, 0);
    run := [s0];
    run := Extend(remote, run, s1, Always);
    run := Extend(remote, run, s2, Always);
    run := Extend(remote, run, s3, Always);
    assert Harmful(remote, s3) by {
      assert 0 in s3.writers;
    }
  }

  /** With the code's own sweeper LocalCopy is right in every run only of a file that is one byte over and over. */
  lemma UnguardedIsRightIff(remote: Bytes)
    ensures AlwaysServesRight(remote, Always) <==> AllEqual(remote)
  {
    hide Next, AlwaysServesRight;
    RightIffNeverHarms(remote, Always);
    if AllEqual(remote) {
      forall run | IsRun(remote, run, Always) && Last(run).doomed && Always(Last(run)) ensures !Harmful(remote, Last(run)) {
        if Harmful(remote, Last(run)) {
          var first := FirstHarm(remote, run, Always);
          RunKeeps(remote, first, Always);
          EqualBytesRepeat(remote, Last(first));
          assert false;
        }
      }
    } else if Repeats(remote, 1) {
      forall i, j | 0 <= i < j < |remote| ensures remote[i] == remote[j] {
        RepeatsFromOne(remote, i);
        RepeatsFromOne(remote, j);
      }
    } else {
      var run := Doomed(remote);
      assert !NeverHarms(remote, Always);
    }
  }

  lemma EqualBytesRepeat(remote: Bytes, s: State)
    requires AllEqual(remote) && Invariant(remote, s)
    ensures !Harmful(remote, s)
  {
    forall p | p in s.writers && Measured(s.writers[p]) ensures Repeats(remote, s.writers[p].have) {
      assert WriterOk(remote, s.part, s.writers[p]);
    }
  }

  /** A sweeper that stays out of the window is right for every file. */
  lemma OutsideTheWindowIsRight(remote: Bytes)
    ensures AlwaysServesRight(remote, OutsideTheWindow)
  {
    hide Next;
    RightIffNeverHarms(remote, OutsideTheWindow);
    assert remote[0..] == remote;
    assert NeverHarms(remote, OutsideTheWindow);
  }
}
