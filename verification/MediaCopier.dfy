/**
 One title's copy as the program runs it (internal/jellyfin/mediacopy.go: startCopy, runCopy, copyOnce),
 proved to be a run of the steps of MediaCopy, with the code's sweeper at work between any two steps.
 */
module MediaCopier {
  import opened Collections
  import opened MediaCopy

  /** The writer's number; a title has one writer at a time. */
  const Me: nat := 0

  const Attempts := 30

  /** What the server sends back: nothing usable, the rest from some byte, or the whole file, its length known or not. */
  datatype Answer = NoAnswer | PartialContent(start: nat) | WholeFile(known: bool)

  /** The file holds the first n bytes. */
  predicate Holds(remote: Bytes, file: Option<Bytes>, n: nat) {
    n <= |remote| && file == Some(remote[..n])
  }

  class Title {
    var part: Option<Bytes>
    var media: Option<Bytes>
    var meta: Option<Meta>
    var copying: bool
    var doomed: bool
    ghost var writers: map<nat, Writer>
    ghost var run: seq<State>
    /** How often the server, the disk or the sweeper has been in the way of a copy. */
    ghost var troubles: nat
    /** How often a copy was no longer wanted, or there was no room for it. */
    ghost var endings: nat

    ghost function Now(): State
      reads this
    {
      State(part, media, meta, copying, writers, doomed)
    }

    /** What has happened to the title is a run that ends in its present state. */
    ghost predicate Valid(remote: Bytes)
      reads this
    {
      run != [] && IsRun(remote, run, Always) && Last(run) == Now()
    }

    ghost predicate Writing(remote: Bytes, w: Writer)
      reads this
    {
      Valid(remote) && copying && meta.Some? && writers == map[Me := w]
    }

    /** What an earlier process left on disk. */
    constructor (remote: Bytes, part: Option<Bytes>, media: Option<Bytes>, meta: Option<Meta>)
      requires PartOk(remote, part) && MediaOk(remote, media, meta)
      ensures Valid(remote) && run == [Now()]
      ensures !copying && !doomed && this.part == part && this.media == media && this.meta == meta
    {
      this.part, this.media, this.meta, copying, doomed := part, media, meta, false, false;
      writers, run := map[], [State(part, media, meta, false, map[], false)];
      troubles, endings := 0, 0;
    }

    // What the world answers.

    /** The server's answer to a request for the bytes from `measured` of a file of that size. */
    method Respond(measured: nat, size: nat) returns (answer: Answer)
      modifies `troubles
      ensures var bad := answer.NoAnswer? || (answer.PartialContent? && (answer.start != measured || measured > size));
              troubles == old(troubles) + if bad then 1 else 0
    {
      answer := *;
      if answer.NoAnswer? || (answer.PartialContent? && (answer.start != measured || measured > size)) {
        troubles := troubles + 1;
      }
    }

    /** The size of the next chunk of a body, of which `left` bytes are to come; none at its end. */
    method Receive(left: nat) returns (n: nat)
      modifies `troubles
      ensures n <= left && troubles == old(troubles) + if n == 0 && left > 0 then 1 else 0
    {
      n := *;
      if n > left {
        n := 0;
      }
      if n == 0 && left > 0 {
        troubles := troubles + 1;
      }
    }

    /** Whether to go on with another attempt. */
    method GoesOn() returns (on: bool)
      modifies `endings
      ensures endings == old(endings) + if on then 0 else 1
    {
      on := *;
      if !on {
        endings := endings + 1;
      }
    }

    /** Whether reading a body, or something on disk, goes wrong. */
    method GoesWrong() returns (wrong: bool)
      modifies `troubles
      ensures troubles == old(troubles) + if wrong then 1 else 0
    {
      wrong := *;
      if wrong {
        troubles := troubles + 1;
      }
    }

    /** Notes that the state has moved on by one step. */
    ghost method Step(remote: Bytes)
      requires IsRun(remote, run, Always) && Next(remote, Last(run), Now(), Always)
      modifies this`run
      ensures Valid(remote) && run == old(run) + [Now()]
    {
      run := Extend(remote, run, Now(), Always);
    }

    /** Notes a step of the writer, which is now at w. */
    ghost method Wrote(remote: Bytes, w: Writer)
      requires IsRun(remote, run, Always) && copying && meta.Some? && writers.Keys == {Me} && writers[Me] == w
      requires WriterStep(remote, Last(run), Now(), Me)
      modifies this`run
      ensures Writing(remote, w) && run == old(run) + [Now()]
    {
      assert writers == map[Me := w];
      Step(remote);
    }

    /** What the sweeper may do in between: see files without a record, and remove files it saw so. */
    method Sweep(remote: Bytes)
      requires Valid(remote)
      modifies this`part, this`media, this`doomed, this`run, this`troubles
      ensures Valid(remote) && old(run) <= run
      ensures troubles == old(troubles) + if part.None? && old(part).Some? then 1 else 0
      ensures meta.Some? && doomed == old(doomed) ==> part == old(part) && media == old(media)
      ensures doomed ==> old(doomed) || meta.None?
    {
      hide IsRun, WriterStep, Start, Remove, Restart;
      var looks: bool, removes: bool := *, *;
      if meta.None? && looks {
        doomed := true;
        assert SweepLooks(Last(run), Now());
        Step(remote);
      }
      if doomed && removes {
        RemoveDoomed(remote);
      }
    }

    /** The sweeper removes what it saw without a record, as far as that succeeds. */
    method RemoveDoomed(remote: Bytes)
      requires Valid(remote) && doomed
      modifies this`part, this`media, this`doomed, this`run, this`troubles
      ensures Valid(remote) && old(run) <= run && !doomed
      ensures troubles == old(troubles) + if part.None? && old(part).Some? then 1 else 0
    {
      hide IsRun, WriterStep, Start, Remove, Restart;
      var thePart: bool, theMedia: bool := *, *;
      if thePart && part.Some? {
        troubles := troubles + 1;
      }
      part, media, doomed := if thePart then None else part, if theMedia then None else media, false;
      assert SweepRemoves(Last(run), Now(), thePart, theMedia, Always);
      Step(remote);
    }

    /** startCopy: unless the title is copied or being copied. */
    method StartCopy(remote: Bytes, size: int) returns (started: bool)
      requires Valid(remote)
      modifies this
      ensures Valid(remote) && old(run) <= run
      ensures started <==> !old(copying) && !(old(meta).Some? && old(meta).value.done)
      ensures started ==> Writing(remote, Waiting) && meta == Some(Meta(size, false))
      ensures !started ==> copying == old(copying) && meta == old(meta) && writers == old(writers)
    {
      Sweep(remote);
      if copying {
        return false;
      }
      if meta.Some? && meta.value.done {
        return false;
      }
      AlwaysOneWriter(remote, run, Always);
      meta, copying, writers := Some(Meta(size, false)), true, writers[Me := Waiting];
      assert Start(Last(run), Now(), Me, size);
      Step(remote);
      started := true;
    }

    /** copyOnce measures .part and asks for the rest. */
    method Measure(remote: Bytes) returns (have: nat)
      requires Writing(remote, Waiting)
      modifies `part, `media, `meta, `doomed, `writers, `run, `troubles
      ensures Writing(remote, Asked(have)) && old(run) <= run
      ensures doomed ==> old(doomed)
      ensures troubles >= old(troubles)
      ensures DidNoHarm(remote, run) ==> have == 0 || Holds(remote, part, have)
    {
      Sweep(remote);
      have := Have(part);
      ghost var before := run;
      WhatIsThere(remote);
      writers := writers[Me := Asked(have)];
      assert Ask(Last(run), Now(), Me);
      Wrote(remote, Asked(have));
      HarmStays(remote, before, run);
    }

    /** What the answer means: where the copy resumes, if it does. */
    method Request(remote: Bytes, measured: nat) returns (ok: bool, have: nat, total: int)
      requires Writing(remote, Asked(measured))
      modifies `part, `media, `meta, `doomed, `writers, `run, `troubles
      ensures Writing(remote, if ok then Opening(have, total) else Waiting) && old(run) <= run
      ensures total == |remote| || total == -1
      ensures ok ==> have == measured || have == 0
      ensures doomed ==> old(doomed)
      ensures doomed == old(doomed) ==> part == old(part)
      ensures troubles >= old(troubles) + if ok && have <= |remote| then 0 else 1
    {
      hide IsRun, Next, Ask, Open, Write, Fail, End, Record, Leave;
      Sweep(remote);
      have, total := measured, -1;
      var answer := Respond(measured, |remote|);
      match answer
      case NoAnswer =>
        Fails(remote);
        ok := false;
      case PartialContent(start) =>
        ok, total := Resume(remote, have, start);
      case WholeFile(known) =>
        ok, have := true, 0;
        total := if known then |remote| else -1;
        meta, writers := Resized(meta, total), writers[Me := Opening(0, total)];
        assert AnswerWhole(remote, Last(run), Now(), Me, known);
        Wrote(remote, Opening(have, total));
    }

    /** A body that starts elsewhere than asked for is an error. */
    method Resume(remote: Bytes, have: nat, start: nat) returns (ok: bool, total: int)
      requires Writing(remote, Asked(have))
      modifies this`meta, this`writers, this`run
      ensures Writing(remote, if ok then Opening(have, total) else Waiting) && old(run) <= run
      ensures (ok <==> start == have) && total == if ok then |remote| else -1
    {
      hide IsRun, Next, Ask, Open, Write, Fail, End, Record, Leave;
      ok := start == have;
      total := if ok then |remote| else -1;
      if ok {
        meta, writers := Resized(meta, total), writers[Me := Opening(have, total)];
      } else {
        writers := writers[Me := Waiting];
      }
      assert AnswerPartial(remote, Last(run), Now(), Me, start);
      Wrote(remote, if ok then Opening(have, total) else Waiting);
    }

    /** Unless a removal did harm, .part is what the remote file begins with. */
    lemma WhatIsThere(remote: Bytes)
      requires Valid(remote)
      ensures DidNoHarm(remote, run) ==> part.None? || Holds(remote, part, |part.value|)
    {
      if DidNoHarm(remote, run) {
        RunKeeps(remote, run, Always);
        assert part.Some? ==> part.value == remote[..|part.value|];
      }
    }

    /** The attempt ends with an error. */
    ghost method Fails(remote: Bytes)
      requires Valid(remote) && copying && meta.Some? && writers.Keys == {Me} && !writers[Me].Finished?
      modifies this`writers, this`run
      ensures Writing(remote, Waiting) && old(run) <= run
    {
      writers := writers[Me := Waiting];
      assert Fail(Last(run), Now(), Me);
      Wrote(remote, Waiting);
    }

    /** The file is opened: emptied if the copy starts over, created if it is not there. */
    method OpenPart(remote: Bytes, have: nat, total: int)
      requires Writing(remote, Opening(have, total))
      modifies `part, `media, `meta, `doomed, `writers, `run, `troubles
      ensures Writing(remote, Streaming(have, total, 0)) && old(run) <= run
      ensures doomed ==> old(doomed)
      ensures doomed == old(doomed) && (have == 0 || Holds(remote, old(part), have)) ==> Holds(remote, part, have)
      ensures part.Some? && troubles >= old(troubles)
    {
      Sweep(remote);
      if have == 0 || part.None? {
        part := Some([]);
      }
      writers := writers[Me := Streaming(have, total, 0)];
      assert Open(Last(run), Now(), Me);
      Wrote(remote, Streaming(have, total, 0));
    }

    /** One chunk of the body; a file that has been removed swallows it. */
    method WriteChunk(remote: Bytes, have: nat, total: int, written: nat, n: nat)
      requires Writing(remote, Streaming(have, total, written)) && have + written + n <= |remote|
      modifies `part, `media, `meta, `doomed, `writers, `run, `troubles
      ensures Writing(remote, Streaming(have, total, written + n)) && old(run) <= run
      ensures doomed ==> old(doomed)
      ensures doomed == old(doomed) && Holds(remote, old(part), have + written) ==> Holds(remote, part, have + written + n)
      ensures troubles == old(troubles) + if part.None? && old(part).Some? then 1 else 0
    {
      Sweep(remote);
      var chunk := remote[have + written..have + written + n];
      assert remote[..have + written] + chunk == remote[..have + written + n];
      if part.Some? {
        part := Some(part.value + chunk);
      }
      writers := writers[Me := Streaming(have, total, written + n)];
      assert Write(remote, Last(run), Now(), Me, n);
      Wrote(remote, Streaming(have, total, written + n));
    }

    /** copyBody: chunk after chunk, until the body ends or breaks. A body of unknown length ends with the file. */
    method CopyBody(remote: Bytes, have: nat, total: int) returns (ok: bool, written: nat)
      requires Writing(remote, Streaming(have, total, 0))
      modifies `part, `media, `meta, `doomed, `writers, `run, `troubles
      ensures Writing(remote, if ok then Streaming(have, total, written) else Waiting) && old(run) <= run
      ensures ok && total < 0 ==> have + written == |remote|
      ensures doomed ==> old(doomed)
      ensures ok && doomed == old(doomed) && Holds(remote, old(part), have) ==> Holds(remote, part, have + written)
      ensures troubles >= old(troubles) + (if old(part).Some? && part.None? then 1 else 0)
      ensures have <= |remote| && (!ok || have + written < |remote|) ==> troubles > old(troubles)
      ensures have <= |remote| ==> have + written <= |remote|
    {
      hide IsRun, Next, LocalCopy;
      written := 0;
      var n := Receive(if have < |remote| then |remote| - have else 0);
      while 0 < n
        invariant (n > 0 ==> have + written + n <= |remote|) && troubles >= old(troubles) + (if old(part).Some? && part.None? then 1 else 0)
        invariant n == 0 && have + written < |remote| ==> troubles > old(troubles)
        invariant have <= |remote| ==> have + written <= |remote|
        invariant Writing(remote, Streaming(have, total, written)) && old(run) <= run
        invariant doomed ==> old(doomed)
        invariant doomed == old(doomed) && Holds(remote, old(part), have) ==> Holds(remote, part, have + written)
        decreases |remote| - have - written
      {
        WriteChunk(remote, have, total, written, n);
        written := written + n;
        n := Receive(|remote| - have - written);
      }
      var broken := GoesWrong();
      ok := !broken && !(total < 0 && have + written != |remote|);
      if !ok {
        Fails(remote);
      }
    }

    /** .part becomes .media, unless it is gone. */
    method Rename(remote: Bytes, have: nat, total: int, written: nat) returns (ok: bool)
      requires Writing(remote, Streaming(have, total, written))
      requires have + written == if total < 0 then |remote| else total
      modifies `part, `media, `meta, `doomed, `writers, `run, `troubles
      ensures Writing(remote, if ok then Renamed(have + written) else Waiting) && old(run) <= run
      ensures doomed ==> old(doomed)
      ensures ok && doomed == old(doomed) ==> media == old(part)
      ensures troubles >= old(troubles) && (!ok && old(part).Some? ==> troubles > old(troubles))
    {
      Sweep(remote);
      var fails := GoesWrong();
      if fails || part.None? {
        Fails(remote);
        return false;
      }
      part, media, writers := None, part, writers[Me := Renamed(have + written)];
      assert End(remote, Last(run), Now(), Me);
      Wrote(remote, Renamed(have + written));
      ok := true;
    }

    /** The record says that the copy is done. */
    method SetDone(remote: Bytes, size: nat) returns (ok: bool)
      requires Writing(remote, Renamed(size))
      modifies `part, `media, `meta, `doomed, `writers, `run, `troubles
      ensures Writing(remote, if ok then Finished else Waiting) && old(run) <= run
      ensures doomed ==> old(doomed)
      ensures ok && doomed == old(doomed) ==> meta == Some(Meta(size, true)) && media == old(media)
      ensures troubles >= old(troubles) + if ok then 0 else 1
    {
      Sweep(remote);
      var fails := GoesWrong();
      if fails {
        Fails(remote);
        return false;
      }
      meta, writers := Some(Meta(size, true)), writers[Me := Finished];
      assert Record(Last(run), Now(), Me);
      Wrote(remote, Finished);
      ok := true;
    }

    /** The end of copyOnce: a whole .part becomes what LocalCopy serves. */
    method Finish(remote: Bytes, have: nat, total: int, written: nat) returns (ok: bool)
      requires Writing(remote, Streaming(have, total, written)) && (total == |remote| || total == -1)
      requires have + written == if total < 0 then |remote| else total
      modifies `part, `media, `meta, `doomed, `writers, `run, `troubles
      ensures Writing(remote, if ok then Finished else Waiting) && old(run) <= run
      ensures doomed ==> old(doomed)
      ensures ok && doomed == old(doomed) && Holds(remote, old(part), have + written) ==> LocalCopy(Now()) == Some(remote)
      ensures troubles >= old(troubles) && (!ok && old(part).Some? ==> troubles > old(troubles))
    {
      hide IsRun;
      ok := Rename(remote, have, total, written);
      if ok {
        ok := SetDone(remote, have + written);
        assert remote[..|remote|] == remote;
      }
    }

    /**
     copyOnce, a run of the protocol with the sweeper in between: success means that LocalCopy serves
     the title, byte for byte, unless the sweeper removed something meanwhile or did harm before; and an
     attempt fails only if the server, the disk or the sweeper is in its way.
     */
    method CopyOnce(remote: Bytes) returns (ok: bool)
      requires Writing(remote, Waiting)
      modifies `part, `media, `meta, `doomed, `writers, `run, `troubles
      ensures Writing(remote, if ok then Finished else Waiting) && old(run) <= run
      ensures doomed ==> old(doomed)
      ensures ok && doomed == old(doomed) && DidNoHarm(remote, run) ==> LocalCopy(Now()) == Some(remote)
      ensures troubles >= old(troubles) + if ok then 0 else 1
    {
      hide IsRun, DidNoHarm, LocalCopy;
      var have, total, written;
      have := Measure(remote);
      label asked:
      ok, have, total := Request(remote, have);
      if !ok {
        return;
      }
      OpenPart(remote, have, total);
      ok, written := CopyBody(remote, have, total);
      if !ok {
        return;
      }
      if total >= 0 && have + written != total {
        Fails(remote);
        return false;
      }
      ok := Finish(remote, have, total, written);
      HarmStays(remote, old@asked(run), run);
    }

    /**
     runCopy: attempt after attempt, until one succeeds, the copy is no longer wanted or there is no room
     for it. A copy that stays wanted is finished, unless something is in its way thirty times.
     */
    method RunCopy(remote: Bytes) returns (ok: bool)
      requires Writing(remote, Waiting)
      modifies this
      ensures Valid(remote) && !copying && old(run) <= run
      ensures DidNoHarm(remote, run) ==> ServesRight(remote, Now())
      ensures doomed ==> old(doomed)
      ensures ok && doomed == old(doomed) && DidNoHarm(remote, run) ==> LocalCopy(Now()) == Some(remote)
      ensures ok || endings > old(endings) || troubles >= old(troubles) + 30
    {
      ok := false;
      var attempt, goesOn := 0, true;
      while attempt < Attempts && goesOn && !ok
        invariant attempt <= Attempts && troubles >= old(troubles) && (!ok && goesOn ==> troubles >= old(troubles) + attempt)
        invariant if goesOn then endings >= old(endings) else endings > old(endings)
        invariant Writing(remote, if ok then Finished else Waiting) && old(run) <= run
        invariant doomed ==> old(doomed)
        invariant ok && doomed == old(doomed) && DidNoHarm(remote, run) ==> LocalCopy(Now()) == Some(remote)
      {
        goesOn := GoesOn();
        if goesOn {
          ok := CopyOnce(remote);
        }
        attempt := attempt + 1;
      }
      ghost var before := run;
      copying, writers := false, writers - {Me};
      assert Leave(Last(run), Now(), Me);
      assert WriterStep(remote, Last(run), Now(), Me);
      Step(remote);
      HarmStays(remote, before, run);
      if DidNoHarm(remote, run) {
        RunKeeps(remote, run, Always);
      }
    }
  }

  /** Harm done stays done. */
  lemma HarmStays(remote: Bytes, run: seq<State>, longer: seq<State>)
    requires run <= longer
    ensures DidNoHarm(remote, longer) ==> DidNoHarm(remote, run)
  {
    hide Harmful, Vanishes;
    if DidNoHarm(remote, longer) {
      forall i | 0 <= i < |run| - 1 && Vanishes(run[i], run[i + 1]) ensures !Harmful(remote, run[i]) {
        assert longer[i] == run[i] && longer[i + 1] == run[i + 1];
      }
    }
  }
}
