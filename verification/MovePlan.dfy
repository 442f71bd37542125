/**
 Planning where a request's titles go (internal/library/move_plan.go: reservations, planFolder,
 planFiles, commonDir). A relative path is the sequence of its components, the library folder being
 the empty one. Which folders are season folders, whether a folder belongs to one title and which
 sidecars a video has are read from disk, and come in as parameters.
 */
module MovePlan {
  import opened Collections
  import opened Decimal

  type Rel = seq<string>

  // ---------------------------------------------------------------------
  // Names
  // ---------------------------------------------------------------------

  function LowerChar(c: char): char {
    if 'A' <= c <= 'Z' then c - 'A' + 'a' else c
  }

  /** strings.ToLower, for ASCII letters. */
  function Lower(s: string): (l: string)
    ensures |l| == |s| && forall i :: 0 <= i < |s| ==> l[i] == LowerChar(s[i])
  {
    if s == "" then "" else Lower(s[..|s| - 1]) + [LowerChar(s[|s| - 1])]
  }

  /** A path as the reservations compare it: ignoring case. */
  function Fold(rel: Rel): (f: Rel)
    ensures |f| == |rel| && forall i :: 0 <= i < |rel| ==> f[i] == Lower(rel[i])
  {
    if rel == [] then [] else Fold(rel[..|rel| - 1]) + [Lower(rel[|rel| - 1])]
  }

  /** The same letter, in either case. */
  lemma SameLetter(c: char, d: char)
    ensures LowerChar(c) == LowerChar(d) <==>
            c == d || ('A' <= c <= 'Z' && d as int == c as int + 32) || ('A' <= d <= 'Z' && c as int == d as int + 32)
  {
  }

  /** Paths that are compared as one have the same components, letter by letter in either case. */
  lemma SameFold(a: Rel, b: Rel)
    ensures Fold(a) == Fold(b) <==>
            && |a| == |b|
            && forall i :: 0 <= i < |a| ==> |a[i]| == |b[i]| && forall k :: 0 <= k < |a[i]| ==> LowerChar(a[i][k]) == LowerChar(b[i][k])
  {
    if Fold(a) == Fold(b) {
      forall i | 0 <= i < |a| ensures |a[i]| == |b[i]| && forall k :: 0 <= k < |a[i]| ==> LowerChar(a[i][k]) == LowerChar(b[i][k]) {
        assert Fold(a)[i] == Lower(a[i]) && Fold(b)[i] == Lower(b[i]);
        forall k | 0 <= k < |a[i]| ensures LowerChar(a[i][k]) == LowerChar(b[i][k]) {
          assert Lower(a[i])[k] == Lower(b[i])[k];
        }
      }
    }
    if |a| == |b|
       && forall i :: 0 <= i < |a| ==> |a[i]| == |b[i]| && forall k :: 0 <= k < |a[i]| ==> LowerChar(a[i][k]) == LowerChar(b[i][k]) {
      forall i | 0 <= i < |a| ensures Fold(a)[i] == Fold(b)[i] {
        assert Lower(a[i]) == Lower(b[i]);
      }
    }
  }

  function Parent(rel: Rel): Rel
    requires rel != []
  {
    rel[..|rel| - 1]
  }

  function Base(rel: Rel): string
    requires rel != []
  {
    rel[|rel| - 1]
  }

  /** Where filepath.Ext cuts a name: at its last dot, or at its end. */
  function ExtAt(name: string): (k: nat)
    ensures k <= |name|
    ensures k < |name| ==> name[k] == '.' && forall j :: k < j < |name| ==> name[j] != '.'
    ensures k == |name| ==> '.' !in name
  {
    if name == "" then 0
    else if name[|name| - 1] == '.' then |name| - 1
    else
      var k := ExtAt(name[..|name| - 1]);
      if k == |name| - 1 then |name| else k
  }

  /** The n-th name claim tries: "name", then "stem (2).ext" and so on. A folder name has no extension. */
  function Candidate(name: string, dir: bool, n: nat): string {
    var k := if dir then |name| else ExtAt(name);
    if n <= 1 then name else name[..k] + " (" + Itoa(n) + ")" + name[k..]
  }

  const Candidates := 999

  /** A file's candidates keep its extension, what follows its last dot; a folder's add to the whole name. */
  lemma CandidatesAre(stem: string, ext: string, n: nat)
    requires (ext == "" && '.' !in stem) || (ext != "" && ext[0] == '.' && '.' !in ext[1..])
    ensures Candidate(stem + ext, false, n) == stem + (if n <= 1 then "" else " (" + Itoa(n) + ")") + ext
    ensures Candidate(stem + ext, true, n) == stem + ext + (if n <= 1 then "" else " (" + Itoa(n) + ")")
    ensures ExtAt(stem + ext) == |stem|
  {
    hide ExtAt, Itoa;
    CutsAtTheExtension(stem, ext);
    CutIn(stem, ext, Itoa(n));
  }

  /** A name with a number put in at the extension, and at its end. */
  lemma CutIn(stem: string, ext: string, number: string)
    ensures var name := stem + ext;
            && name[..|stem|] + " (" + number + ")" + name[|stem|..] == stem + (" (" + number + ")") + ext
            && name[..|name|] + " (" + number + ")" + name[|name|..] == stem + ext + (" (" + number + ")")
            && stem + "" + ext == stem + ext == stem + ext + ""
  {
    var name := stem + ext;
    assert name[..|stem|] == stem && name[|stem|..] == ext && name[..|name|] == name && name[|name|..] == "";
    OneByOne(stem, number);
    OneByOne(name, number);
    assert name + (" (" + number + ")") + "" == name + (" (" + number + ")");
  }

  lemma OneByOne(s: string, number: string)
    ensures s + " (" + number + ")" == s + (" (" + number + ")")
  {
  }

  lemma CutsAtTheExtension(stem: string, ext: string)
    requires (ext == "" && '.' !in stem) || (ext != "" && ext[0] == '.' && '.' !in ext[1..])
    ensures ExtAt(stem + ext) == |stem|
  {
    var name, k := stem + ext, ExtAt(stem + ext);
    if ext == "" {
      assert name == stem;
    } else {
      assert name[|stem|] == '.';
      forall j | |stem| < j < |name| ensures name[j] != '.' {
        assert name[j] == ext[1..][j - |stem| - 1];
      }
    }
  }

  // ---------------------------------------------------------------------
  // Reservations
  // ---------------------------------------------------------------------

  /** What mark takes for rel: the path and every folder above it. */
  function Closure(rel: Rel): set<Rel> {
    if rel == [] then {} else Closure(Parent(rel)) + {Fold(rel)}
  }

  /** A path takes itself and every folder above it, and nothing else. */
  lemma {:induction false} ClosureIsAbove(rel: Rel, f: Rel)
    ensures f in Closure(rel) <==> f != [] && f <= Fold(rel)
  {
    if rel != [] {
      ClosureIsAbove(Parent(rel), f);
      ShorterPrefix(f, Fold(rel));
    }
  }

  lemma ShorterPrefix(p: Rel, f: Rel)
    requires f != []
    ensures p <= f <==> p == f || p <= Parent(f)
  {
    if p <= f && |p| < |f| {
      assert p == f[..|p|] == Parent(f)[..|p|];
    }
  }

  /** Neither path is, or contains, the other, ignoring case. */
  ghost predicate Apart(a: Rel, b: Rel) {
    !(Fold(a) <= Fold(b)) && !(Fold(b) <= Fold(a))
  }

  /** rel is taken, or exists. */
  predicate BusyIn(taken: set<Rel>, onDisk: set<Rel>, rel: Rel) {
    Fold(rel) in taken || rel in onDisk
  }

  /** The n-th path claim tries for rel. */
  function Try(rel: Rel, dir: bool, n: nat): Rel
    requires rel != []
  {
    Parent(rel) + [Candidate(Base(rel), dir, n)]
  }

  ghost predicate NoneFree(taken: set<Rel>, onDisk: set<Rel>, rel: Rel, dir: bool)
    requires rel != []
  {
    forall n :: 1 <= n <= Candidates ==> BusyIn(taken, onDisk, Try(rel, dir, n))
  }

  /** The number of the first free try from n on; 0 if there is none. */
  function FirstFree(taken: set<Rel>, onDisk: set<Rel>, rel: Rel, dir: bool, n: nat): nat
    requires rel != [] && 1 <= n <= Candidates + 1
    decreases Candidates + 1 - n
  {
    if n > Candidates then 0
    else if !BusyIn(taken, onDisk, Try(rel, dir, n)) then n
    else FirstFree(taken, onDisk, rel, dir, n + 1)
  }

  lemma {:induction false} FirstFreeIs(taken: set<Rel>, onDisk: set<Rel>, rel: Rel, dir: bool, n: nat)
    requires rel != [] && 1 <= n <= Candidates + 1
    ensures var k := FirstFree(taken, onDisk, rel, dir, n);
            && (k == 0 || (n <= k <= Candidates && !BusyIn(taken, onDisk, Try(rel, dir, k))))
            && forall m :: n <= m <= Candidates && (k == 0 || m < k) ==> BusyIn(taken, onDisk, Try(rel, dir, m))
    decreases Candidates + 1 - n
  {
    hide BusyIn, Try;
    if n <= Candidates && BusyIn(taken, onDisk, Try(rel, dir, n)) {
      FirstFreeIs(taken, onDisk, rel, dir, n + 1);
    }
  }

  /** What claim answers for rel: the first free try or, when there is none, rel itself. */
  function Claimed(taken: set<Rel>, onDisk: set<Rel>, rel: Rel, dir: bool): (claimed: Rel)
    requires rel != []
    ensures claimed != [] && Parent(claimed) == Parent(rel)
  {
    var n := FirstFree(taken, onDisk, rel, dir, 1);
    if n == 0 then rel else Try(rel, dir, n)
  }

  /** What is taken afterwards. */
  function TakenAfter(taken: set<Rel>, onDisk: set<Rel>, rel: Rel, dir: bool): set<Rel>
    requires rel != []
  {
    if FirstFree(taken, onDisk, rel, dir, 1) == 0 then taken else taken + Closure(Claimed(taken, onDisk, rel, dir))
  }

  /** What claim answers is free unless no try was; and it is the name asked for if that was free, or none was. */
  lemma ClaimedIs(taken: set<Rel>, onDisk: set<Rel>, rel: Rel, dir: bool)
    requires rel != []
    ensures BusyIn(taken, onDisk, Claimed(taken, onDisk, rel, dir)) <==> NoneFree(taken, onDisk, rel, dir)
    ensures Claimed(taken, onDisk, rel, dir) == rel <==> !BusyIn(taken, onDisk, rel) || NoneFree(taken, onDisk, rel, dir)
  {
    hide BusyIn, Try, FirstFree;
    TryOne(rel, dir);
    FirstFreeIs(taken, onDisk, rel, dir, 1);
    var n := FirstFree(taken, onDisk, rel, dir, 1);
    if n > 1 {
      assert BusyIn(taken, onDisk, Try(rel, dir, 1));
    }
  }

  /** The first try is the name asked for, and no other is. */
  lemma TryOne(rel: Rel, dir: bool)
    requires rel != []
    ensures Try(rel, dir, 1) == rel
  {
  }

  // ---------------------------------------------------------------------
  // How many names there are
  // ---------------------------------------------------------------------

  /** Two numbers give two names, ignoring case. */
  lemma CandidatesDiffer(name: string, dir: bool, m: nat, n: nat)
    requires 1 <= m && 1 <= n && Lower(Candidate(name, dir, m)) == Lower(Candidate(name, dir, n))
    ensures m == n
  {
    hide Candidate, Itoa, Lower, ExtAt, LowerChar;
    var k := if dir then |name| else ExtAt(name);
    var a, b := Candidate(name, dir, m), Candidate(name, dir, n);
    CandidateDigits(name, dir, m);
    CandidateDigits(name, dir, n);
    assert |a| == |b|;
    if m > 1 && n > 1 {
      forall i | 0 <= i < |Itoa(m)| ensures Itoa(m)[i] == Itoa(n)[i] {
        assert Lower(a)[k + 2 + i] == Lower(b)[k + 2 + i];
        SameLetter(a[k + 2 + i], b[k + 2 + i]);
      }
      assert Itoa(m) == Itoa(n);
      OneNumber(m, n);
    }
  }

  /** Where a candidate's number stands. */
  lemma CandidateDigits(name: string, dir: bool, n: nat)
    ensures |Candidate(name, dir, n)| == |name| + if n <= 1 then 0 else 3 + |Itoa(n)|
    ensures var k := if dir then |name| else ExtAt(name);
            n > 1 ==> forall i :: 0 <= i < |Itoa(n)| ==> Candidate(name, dir, n)[k + 2 + i] == Itoa(n)[i]
  {
    hide Itoa, ExtAt;
    var k := if dir then |name| else ExtAt(name);
    InTheMiddle(name[..k], Itoa(n), name[k..]);
  }

  lemma InTheMiddle(front: string, s: string, back: string)
    ensures var c := front + " (" + s + ")" + back;
            |c| == |front| + |s| + |back| + 3 && forall i :: 0 <= i < |s| ==> c[|front| + 2 + i] == s[i]
  {
    var head := front + " (";
    var most := head + s + ")";
    assert forall i :: 0 <= i < |s| ==> (head + s)[|head| + i] == s[i];
    assert forall i :: 0 <= i < |most| ==> (most + back)[i] == most[i];
  }

  lemma TriesDiffer(rel: Rel, dir: bool, m: nat, n: nat)
    requires rel != [] && 1 <= m && 1 <= n && Fold(Try(rel, dir, m)) == Fold(Try(rel, dir, n))
    ensures m == n
  {
    var last := |rel| - 1;
    assert Fold(Try(rel, dir, m))[last] == Lower(Candidate(Base(rel), dir, m));
    assert Fold(Try(rel, dir, n))[last] == Lower(Candidate(Base(rel), dir, n));
    CandidatesDiffer(Base(rel), dir, m, n);
  }

  /** The numbers of the tries that are busy. */
  ghost function BusyTries(taken: set<Rel>, onDisk: set<Rel>, rel: Rel, dir: bool): set<nat>
    requires rel != []
  {
    set n: nat | 1 <= n <= Candidates && BusyIn(taken, onDisk, Try(rel, dir, n))
  }

  /** Every name, in every folder, has at least k free tries left. */
  ghost predicate Roomy(taken: set<Rel>, onDisk: set<Rel>, k: nat) {
    forall rel, dir :: rel != [] ==> |BusyTries(taken, onDisk, rel, dir)| + k <= Candidates
  }

  ghost function Numbers(k: nat): (s: set<nat>)
    ensures |s| == k && forall n :: n in s <==> 1 <= n <= k
  {
    if k == 0 then {} else Numbers(k - 1) + {k}
  }

  /** A name has no free try exactly if 999 are busy. */
  lemma AllBusyIff(taken: set<Rel>, onDisk: set<Rel>, rel: Rel, dir: bool)
    requires rel != []
    ensures |BusyTries(taken, onDisk, rel, dir)| <= Candidates
    ensures NoneFree(taken, onDisk, rel, dir) <==> |BusyTries(taken, onDisk, rel, dir)| == Candidates
  {
    hide BusyIn, Try, Numbers;
    var all := Numbers(Candidates);
    var busy := BusyTries(taken, onDisk, rel, dir);
    SubsetSize(busy, all);
    if NoneFree(taken, onDisk, rel, dir) {
      assert busy == all;
    } else {
      var n :| 1 <= n <= Candidates && !BusyIn(taken, onDisk, Try(rel, dir, n));
      SubsetSize(busy, all - {n});
    }
  }

  /** Of the tries of one name at most one is, or is above, a path. */
  lemma OneTryAbove(p: Rel, rel: Rel, dir: bool, m: nat, n: nat)
    requires rel != [] && m >= 1 && n >= 1 && Fold(Try(rel, dir, m)) in Closure(p) && Fold(Try(rel, dir, n)) in Closure(p)
    ensures m == n
  {
    hide Closure, Fold, Candidate;
    ClosureIsAbove(p, Fold(Try(rel, dir, m)));
    ClosureIsAbove(p, Fold(Try(rel, dir, n)));
    assert Fold(Try(rel, dir, m)) == Fold(p)[..|rel|] == Fold(Try(rel, dir, n));
    TriesDiffer(rel, dir, m, n);
  }

  /** Taking a path makes at most one try of any name busy. */
  lemma AtMostOneMore(taken: set<Rel>, onDisk: set<Rel>, p: Rel, rel: Rel, dir: bool)
    requires rel != []
    ensures |BusyTries(taken + Closure(p), onDisk, rel, dir)| <= |BusyTries(taken, onDisk, rel, dir)| + 1
  {
    hide Try, Fold, Closure;
    var before, after := BusyTries(taken, onDisk, rel, dir), BusyTries(taken + Closure(p), onDisk, rel, dir);
    if n :| n in after && n !in before {
      forall m | m in after && m !in before ensures m == n {
        OneTryAbove(p, rel, dir, m, n);
      }
      SubsetSize(after, before + {n});
    } else {
      SubsetSize(after, before);
    }
  }

  /** Where there is room a claim is free, and uses up one try at most. */
  lemma RoomForClaim(taken: set<Rel>, onDisk: set<Rel>, rel: Rel, dir: bool, k: nat)
    requires rel != [] && k > 0 && Roomy(taken, onDisk, k)
    ensures !NoneFree(taken, onDisk, rel, dir) && Roomy(TakenAfter(taken, onDisk, rel, dir), onDisk, k - 1)
  {
    hide BusyTries, Claimed, BusyIn, Try, FirstFree;
    AllBusyIff(taken, onDisk, rel, dir);
    forall r: Rel, d: bool | r != [] ensures |BusyTries(TakenAfter(taken, onDisk, rel, dir), onDisk, r, d)| + (k - 1) <= Candidates {
      AtMostOneMore(taken, onDisk, Claimed(taken, onDisk, rel, dir), r, d);
    }
  }

  /** What a claim does, whether or not it finds a free try. */
  lemma ClaimDoes(taken: set<Rel>, onDisk: set<Rel>, rel: Rel, dir: bool, room: nat)
    requires rel != []
    ensures var claimed, taken', free := Claimed(taken, onDisk, rel, dir), TakenAfter(taken, onDisk, rel, dir),
                                         FirstFree(taken, onDisk, rel, dir, 1) != 0;
            && taken <= taken'
            && (if free then !BusyIn(taken, onDisk, claimed) && taken' == taken + Closure(claimed) else NoNameLeft(taken', onDisk))
            && (Roomy(taken, onDisk, room) && room > 0 ==> free && Roomy(taken', onDisk, room - 1))
  {
    hide BusyIn, Try, FirstFree, Roomy, Closure;
    FirstFreeIs(taken, onDisk, rel, dir, 1);
    assert FirstFree(taken, onDisk, rel, dir, 1) == 0 ==> NoneFree(taken, onDisk, rel, dir);
    if Roomy(taken, onDisk, room) && room > 0 {
      RoomForClaim(taken, onDisk, rel, dir, room);
    }
  }

  /** The names in a folder that are catalogued, planned or on disk, ignoring case. */
  ghost function NamesIn(taken: set<Rel>, onDisk: set<Rel>, folder: Rel): set<Rel> {
    (set f | f in taken && f != [] && Parent(f) == Fold(folder)) + (set p | p in onDisk && p != [] && Parent(p) == folder :: Fold(p))
  }

  ghost function NamesOf(tries: set<nat>, rel: Rel, dir: bool): set<Rel>
    requires rel != []
  {
    set n | n in tries :: Fold(Try(rel, dir, n))
  }

  lemma {:induction false} OneNameEach(tries: set<nat>, rel: Rel, dir: bool)
    requires rel != [] && forall n :: n in tries ==> n >= 1
    ensures |NamesOf(tries, rel, dir)| == |tries|
  {
    hide Fold, Try, NamesOf;
    if tries == {} {
      NoNames(rel, dir);
    } else {
      var m :| m in tries;
      var rest := tries - {m};
      OneNameEach(rest, rel, dir);
      OneMoreName(rest, m, rel, dir);
      assert tries == rest + {m};
    }
  }

  lemma NoNames(rel: Rel, dir: bool)
    requires rel != []
    ensures NamesOf({}, rel, dir) == {}
  {
  }

  lemma OneMoreName(tries: set<nat>, m: nat, rel: Rel, dir: bool)
    requires rel != [] && m >= 1 && m !in tries && forall n :: n in tries ==> n >= 1
    ensures NamesOf(tries + {m}, rel, dir) == NamesOf(tries, rel, dir) + {Fold(Try(rel, dir, m))}
    ensures Fold(Try(rel, dir, m)) !in NamesOf(tries, rel, dir)
  {
    hide Fold, Try;
    forall n | n in tries ensures Fold(Try(rel, dir, n)) != Fold(Try(rel, dir, m)) {
      if Fold(Try(rel, dir, n)) == Fold(Try(rel, dir, m)) {
        TriesDiffer(rel, dir, n, m);
      }
    }
  }

  /** Where a busy try is among the names of its folder. */
  lemma BusyTryIsName(taken: set<Rel>, onDisk: set<Rel>, rel: Rel, dir: bool, n: nat)
    requires rel != [] && BusyIn(taken, onDisk, Try(rel, dir, n))
    ensures Fold(Try(rel, dir, n)) in NamesIn(taken, onDisk, Parent(rel))
  {
    hide Candidate;
    var t := Try(rel, dir, n);
    assert Parent(t) == Parent(rel);
    assert Parent(Fold(t)) == Fold(Parent(rel));
  }

  /** A name has no more busy tries than there are names in its folder. */
  lemma BusyNames(taken: set<Rel>, onDisk: set<Rel>, rel: Rel, dir: bool)
    requires rel != []
    ensures |BusyTries(taken, onDisk, rel, dir)| <= |NamesIn(taken, onDisk, Parent(rel))|
  {
    hide Fold, Try, BusyIn, NamesIn;
    var busy := BusyTries(taken, onDisk, rel, dir);
    var names := NamesOf(busy, rel, dir);
    OneNameEach(busy, rel, dir);
    forall f | f in names ensures f in NamesIn(taken, onDisk, Parent(rel)) {
      var n :| n in busy && f == Fold(Try(rel, dir, n));
      BusyTryIsName(taken, onDisk, rel, dir, n);
    }
    SubsetSize(names, NamesIn(taken, onDisk, Parent(rel)));
  }

  /** There is room for k claims where no folder has more than 999 - k names. */
  lemma SmallFoldersAreRoomy(taken: set<Rel>, onDisk: set<Rel>, k: nat)
    requires forall folder :: |NamesIn(taken, onDisk, folder)| + k <= Candidates
    ensures Roomy(taken, onDisk, k)
  {
    forall rel: Rel, dir: bool | rel != [] ensures |BusyTries(taken, onDisk, rel, dir)| + k <= Candidates {
      BusyNames(taken, onDisk, rel, dir);
    }
  }

  /** Some name has none of its tries free. */
  ghost predicate NoNameLeft(taken: set<Rel>, onDisk: set<Rel>) {
    exists rel, dir :: rel != [] && NoneFree(taken, onDisk, rel, dir)
  }

  lemma StillNoneLeft(taken: set<Rel>, taken': set<Rel>, onDisk: set<Rel>)
    requires taken <= taken'
    ensures NoNameLeft(taken, onDisk) ==> NoNameLeft(taken', onDisk)
  {
    if rel, dir :| rel != [] && NoneFree(taken, onDisk, rel, dir) {
      assert NoneFree(taken', onDisk, rel, dir);
    }
  }

  class Reservations {
    var taken: set<Rel>
    /** What exists in the destination folder while the request is planned. */
    const onDisk: set<Rel>

    /** The destination's catalogued files are taken to begin with. */
    constructor (catalogued: seq<Rel>, onDisk: set<Rel>)
      ensures this.onDisk == onDisk
      ensures forall f :: f in taken <==> exists i :: 0 <= i < |catalogued| && f in Closure(catalogued[i])
    {
      this.onDisk := onDisk;
      taken := {};
      new;
      hide Closure, Fold;
      for i := 0 to |catalogued|
        invariant forall f :: f in taken <==> exists j :: 0 <= j < i && f in Closure(catalogued[j])
      {
        ghost var before := taken;
        Mark(catalogued[i]);
        assert forall f :: f in taken <==> f in before || f in Closure(catalogued[i]);
      }
    }

    method Mark(rel: Rel)
      modifies this`taken
      ensures taken == old(taken) + Closure(rel)
    {
      var r := rel;
      while r != []
        invariant r <= rel
        invariant taken + Closure(r) == old(taken) + Closure(rel)
        decreases |r|
      {
        taken := taken + {Fold(r)};
        r := Parent(r);
      }
    }

    /**
     claim: the first candidate that is free, now taken; without one, the wanted name itself, although
     it is not free.
     */
    method Claim(rel: Rel, dir: bool) returns (claimed: Rel, renamed: bool)
      requires rel != []
      modifies this`taken
      ensures claimed == Claimed(old(taken), onDisk, rel, dir) && (renamed <==> claimed != rel)
      ensures taken == TakenAfter(old(taken), onDisk, rel, dir)
    {
      hide FirstFree, Try, Closure, Fold, BusyIn;
      for n := 1 to Candidates + 1
        invariant taken == old(taken)
        invariant FirstFree(taken, onDisk, rel, dir, 1) == FirstFree(taken, onDisk, rel, dir, n)
      {
        var full := Try(rel, dir, n);
        FirstFreeStep(taken, onDisk, rel, dir, n);
        if !BusyIn(taken, onDisk, full) {
          FirstIsSame(rel, dir, n);
          Mark(full);
          return full, n > 1;
        }
      }
      FirstFreeStep(taken, onDisk, rel, dir, Candidates + 1);
      return rel, false;
    }
  }

  lemma FirstFreeStep(taken: set<Rel>, onDisk: set<Rel>, rel: Rel, dir: bool, n: nat)
    requires rel != [] && 1 <= n <= Candidates + 1
    ensures FirstFree(taken, onDisk, rel, dir, n) ==
            if n > Candidates then 0
            else if !BusyIn(taken, onDisk, Try(rel, dir, n)) then n
            else FirstFree(taken, onDisk, rel, dir, n + 1)
  {
  }

  /** Only the first try is the name asked for. */
  lemma FirstIsSame(rel: Rel, dir: bool, n: nat)
    requires rel != [] && n >= 1
    ensures Try(rel, dir, n) == rel <==> n == 1
  {
    if Try(rel, dir, n) == rel {
      assert Try(rel, dir, 1) == rel;
      TriesDiffer(rel, dir, n, 1);
    }
  }

  // ---------------------------------------------------------------------
  // Units and their plans
  // ---------------------------------------------------------------------

  datatype Kind = Movie | Series

  /** A catalogued file, below its library's folder, with the names of its sidecars in the same folder. */
  datatype UnitFile = UnitFile(id: string, rel: Rel, season: int, sidecars: seq<string>)

  /** A title to move: `folder` is the name planFiles gives it, `own` whether its folder holds nothing else. */
  datatype Unit = Unit(kind: Kind, files: seq<UnitFile>, folder: string)

  datatype Op = Op(src: Rel, dst: Rel)

  datatype FileDest = FileDest(id: string, rel: Rel)

  datatype Plan = Plan(ops: seq<Op>, files: seq<FileDest>)

  /** Moving op's source to its destination takes the file at rel to exactly `to`. */
  ghost predicate Carries(op: Op, rel: Rel, to: Rel) {
    op.src <= rel && to == op.dst + rel[|op.src|..]
  }

  ghost predicate Carried(ops: seq<Op>, rel: Rel, to: Rel) {
    exists op :: op in ops && Carries(op, rel, to)
  }

  /** Every catalogued file is recorded, in order, where some operation takes it. */
  ghost predicate RecordsWhatHappens(u: Unit, plan: Plan) {
    && |plan.files| == |u.files|
    && forall i :: 0 <= i < |u.files| ==>
         && plan.files[i].id == u.files[i].id
         && Carried(plan.ops, u.files[i].rel, plan.files[i].rel)
  }

  ghost predicate AllApart(ops: seq<Op>) {
    forall i, j :: 0 <= i < j < |ops| ==> Apart(ops[i].dst, ops[j].dst)
  }

  ghost predicate NoneOnDisk(ops: seq<Op>, onDisk: set<Rel>) {
    forall i :: 0 <= i < |ops| ==> ops[i].dst !in onDisk
  }

  ghost predicate Reserved(ops: seq<Op>, taken: set<Rel>) {
    forall i :: 0 <= i < |ops| ==> ops[i].dst != [] && Closure(ops[i].dst) <= taken
  }

  /** The planner's invariant over the operations of a request. */
  ghost predicate Sound(ops: seq<Op>, taken: set<Rel>, onDisk: set<Rel>) {
    AllApart(ops) && NoneOnDisk(ops, onDisk) && Reserved(ops, taken)
  }

  /** Whatever is above a path, or is it, is in what the path takes. */
  lemma AboveIsTaken(d: Rel, p: Rel)
    requires d != []
    ensures Fold(d) <= Fold(p) ==> Fold(d) in Closure(p)
  {
    ClosureIsAbove(p, Fold(d));
  }

  /** Of two paths, the shorter is not below the longer. */
  lemma NotBelowLonger(p: Rel, d: Rel)
    requires |p| >= |d|
    ensures Fold(p) <= Fold(d) ==> Fold(d) <= Fold(p)
  {
  }

  /** A path above one in folder `top` takes `top`. */
  lemma AboveTakesTop(p: Rel, top: Rel, d: Rel)
    requires |top| == 1 && top <= d && p != []
    ensures Fold(p) <= Fold(d) ==> Fold(top) in Closure(p)
  {
    ClosureIsAbove(p, Fold(top));
    assert Fold(p) <= Fold(d) ==> Fold(top) <= Fold(p);
  }

  /** As far as two folders agree. */
  function Shared(a: Rel, b: Rel): Rel {
    if a == [] || b == [] || a[0] != b[0] then [] else [a[0]] + Shared(a[1..], b[1..])
  }

  /** The deepest folder above every file. */
  function Deepest(files: seq<UnitFile>): Rel
    requires files != [] && forall i :: 0 <= i < |files| ==> files[i].rel != []
  {
    var last := Parent(files[|files| - 1].rel);
    if |files| == 1 then last else Shared(Deepest(files[..|files| - 1]), last)
  }

  lemma {:induction false} SharedIsDeepest(a: Rel, b: Rel, d: Rel)
    ensures d <= Shared(a, b) <==> d <= a && d <= b
  {
    if d != [] && a != [] && b != [] && a[0] == b[0] {
      SharedIsDeepest(a[1..], b[1..], d[1..]);
      PrefixOfCons(d, a);
      PrefixOfCons(d, b);
      PrefixOfCons(d, Shared(a, b));
    } else if d != [] {
      assert d <= a ==> a[0] == d[0];
      assert d <= b ==> b[0] == d[0];
    }
  }

  lemma PrefixOfCons(d: Rel, a: Rel)
    requires d != [] && a != []
    ensures d <= a <==> d[0] == a[0] && d[1..] <= a[1..]
  {
    assert d == [d[0]] + d[1..] && a == [a[0]] + a[1..];
  }

  /** A folder is above every file exactly when it is above, or is, the deepest one that is. */
  lemma {:induction false} DeepestIsAbove(files: seq<UnitFile>, d: Rel)
    requires files != [] && forall i :: 0 <= i < |files| ==> files[i].rel != []
    ensures d <= Deepest(files) <==> forall i :: 0 <= i < |files| ==> d <= Parent(files[i].rel)
  {
    hide Parent, Shared;
    var n := |files| - 1;
    if n > 0 {
      DeepestIsAbove(files[..n], d);
      SharedIsDeepest(Deepest(files[..n]), Parent(files[n].rel), d);
      if d <= Deepest(files) {
        forall i | 0 <= i < |files| ensures d <= Parent(files[i].rel) {
          assert i < n ==> files[..n][i] == files[i];
        }
      }
    }
  }

  /** The loop of commonDir over two folders. */
  method CommonPrefix(a: Rel, b: Rel) returns (p: Rel)
    ensures p == Shared(a, b)
  {
    hide Shared;
    var n := 0;
    while n < |a| && n < |b| && a[n] == b[n]
      invariant n <= |a| && n <= |b| && Shared(a, b) == a[..n] + Shared(a[n..], b[n..])
    {
      SharedFrom(a, b, n);
      n := n + 1;
    }
    SharedFrom(a, b, n);
    p := a[..n];
  }

  lemma SharedFrom(a: Rel, b: Rel, n: nat)
    requires n <= |a| && n <= |b|
    ensures if n < |a| && n < |b| && a[n] == b[n]
            then a[..n] + Shared(a[n..], b[n..]) == a[..n + 1] + Shared(a[n + 1..], b[n + 1..])
            else Shared(a[n..], b[n..]) == []
  {
    if n < |a| && n < |b| && a[n] == b[n] {
      assert a[n..][1..] == a[n + 1..] && b[n..][1..] == b[n + 1..];
      assert a[..n] + ([a[n]] + Shared(a[n + 1..], b[n + 1..])) == a[..n + 1] + Shared(a[n + 1..], b[n + 1..]);
    }
  }

  /** commonDir of a title's files. */
  method CommonDir(files: seq<UnitFile>) returns (dir: Rel)
    requires files != [] && forall i :: 0 <= i < |files| ==> files[i].rel != []
    ensures dir == Deepest(files)
  {
    dir := Parent(files[0].rel);
    for i := 1 to |files|
      invariant dir == Deepest(files[..i])
    {
      assert files[..i + 1][..i] == files[..i];
      dir := CommonPrefix(dir, Parent(files[i].rel));
    }
    assert files[..|files|] == files;
  }

  /** Without the season folders at its end. */
  function Unseasoned(dir: Rel, seasons: set<string>): (r: Rel)
    ensures r <= dir
  {
    if dir != [] && Base(dir) in seasons then Unseasoned(Parent(dir), seasons) else dir
  }

  /** The folder that planFolder would move: a show's is above its season folders. */
  function TitleFolder(u: Unit, seasons: set<string>): (dir: Rel)
    requires u.files != [] && forall i :: 0 <= i < |u.files| ==> u.files[i].rel != []
    ensures dir <= Deepest(u.files)
  {
    if u.kind == Series then Unseasoned(Deepest(u.files), seasons) else Deepest(u.files)
  }

  /** The folder contains every file. */
  predicate ContainsAll(u: Unit, dir: Rel)
    requires forall i :: 0 <= i < |u.files| ==> u.files[i].rel != []
  {
    forall i :: 0 <= i < |u.files| ==> dir <= Parent(u.files[i].rel)
  }

  /** A folder that a title could have for its own: of a show, one that is not a season folder. */
  predicate CouldBeOwn(u: Unit, seasons: set<string>, dir: Rel)
    requires forall i :: 0 <= i < |u.files| ==> u.files[i].rel != []
  {
    dir != [] && ContainsAll(u, dir) && (u.kind == Series ==> Base(dir) !in seasons)
  }

  /** The deepest such folder. */
  ghost predicate DeepestOwn(u: Unit, seasons: set<string>, dir: Rel)
    requires forall i :: 0 <= i < |u.files| ==> u.files[i].rel != []
  {
    CouldBeOwn(u, seasons, dir) && forall d :: CouldBeOwn(u, seasons, d) ==> d <= dir
  }

  /** Climbing stops at the deepest folder above, or at, dir that is not a season folder. */
  lemma {:induction false} UnseasonedIs(dir: Rel, seasons: set<string>, d: Rel)
    requires d != [] && Base(d) !in seasons
    ensures d <= dir <==> d <= Unseasoned(dir, seasons)
    decreases |dir|
  {
    if dir != [] && Base(dir) in seasons {
      UnseasonedIs(Parent(dir), seasons, d);
      ShorterPrefix(d, dir);
    }
  }

  /** planFolder's folder is the library folder itself, or the deepest one the title could have. */
  lemma TitleFolderIs(u: Unit, seasons: set<string>, dir: Rel)
    requires u.files != [] && forall i :: 0 <= i < |u.files| ==> u.files[i].rel != []
    ensures DeepestOwn(u, seasons, dir) <==> dir == TitleFolder(u, seasons) != []
  {
    var t := TitleFolder(u, seasons);
    forall d | CouldBeOwn(u, seasons, d) ensures d <= t {
      DeepestIsAbove(u.files, d);
      if u.kind == Series {
        UnseasonedIs(Deepest(u.files), seasons, d);
      }
    }
    if t != [] {
      DeepestIsAbove(u.files, t);
      SeasonsAreLeft(Deepest(u.files), seasons);
      assert CouldBeOwn(u, seasons, t);
      if DeepestOwn(u, seasons, dir) {
        assert t <= dir && dir <= t;
      }
    }
  }

  lemma {:induction false} SeasonsAreLeft(dir: Rel, seasons: set<string>)
    ensures Unseasoned(dir, seasons) != [] ==> Base(Unseasoned(dir, seasons)) !in seasons
    decreases |dir|
  {
    if dir != [] && Base(dir) in seasons {
      SeasonsAreLeft(Parent(dir), seasons);
    }
  }

  predicate HasOwnFolder(u: Unit, seasons: set<string>, own: set<Rel>)
    requires u.files != [] && forall i :: 0 <= i < |u.files| ==> u.files[i].rel != []
  {
    TitleFolder(u, seasons) != [] && TitleFolder(u, seasons) in own
  }

  lemma OwnFolderIs(u: Unit, seasons: set<string>, own: set<Rel>)
    requires u.files != [] && forall i :: 0 <= i < |u.files| ==> u.files[i].rel != []
    ensures HasOwnFolder(u, seasons, own) <==> exists dir :: DeepestOwn(u, seasons, dir) && dir in own
    ensures HasOwnFolder(u, seasons, own) ==> DeepestOwn(u, seasons, TitleFolder(u, seasons))
  {
    hide DeepestOwn, TitleFolder;
    TitleFolderIs(u, seasons, TitleFolder(u, seasons));
    if dir :| DeepestOwn(u, seasons, dir) && dir in own {
      TitleFolderIs(u, seasons, dir);
    }
  }

  /** planFolder: the title's own folder as one operation, or nothing when it has none. */
  method PlanFolder(u: Unit, seasons: set<string>, own: set<Rel>, res: Reservations, ghost before: seq<Op>, ghost room: nat)
    returns (ok: bool, plan: Plan, ghost free: bool)
    requires u.files != [] && forall i :: 0 <= i < |u.files| ==> u.files[i].rel != []
    modifies res`taken
    ensures ok <==> HasOwnFolder(u, seasons, own)
    ensures ok <==> exists dir :: DeepestOwn(u, seasons, dir) && dir in own
    ensures ok ==> |plan.ops| == 1 && DeepestOwn(u, seasons, plan.ops[0].src) && plan.ops[0].src in own
    ensures !ok ==> res.taken == old(res.taken) && free
    ensures ok ==> RecordsWhatHappens(u, plan)
    ensures ok ==> var dir := TitleFolder(u, seasons);
                   && plan.ops == [Op(dir, Claimed(old(res.taken), res.onDisk, [Base(dir)], true))]
                   && res.taken == TakenAfter(old(res.taken), res.onDisk, [Base(dir)], true)
    ensures ok && free && Sound(before, old(res.taken), res.onDisk) ==> Sound(before + plan.ops, res.taken, res.onDisk)
    ensures old(res.taken) <= res.taken
    ensures !free ==> NoNameLeft(res.taken, res.onDisk)
    ensures ok && Roomy(old(res.taken), res.onDisk, room) && room > 0 ==> free && Roomy(res.taken, res.onDisk, room - 1)
  {
    hide Sound, Roomy, NoNameLeft, RecordsWhatHappens, Deepest, FirstFree, Claimed, TakenAfter, DeepestOwn;
    plan, free := Plan([], []), true;
    ghost var taken := res.taken;
    OwnFolderIs(u, seasons, own);
    var dir := CommonDir(u.files);
    DeepestIsAbove(u.files, dir);
    if u.kind == Series {
      while dir != [] && Base(dir) in seasons
        invariant forall i :: 0 <= i < |u.files| ==> dir <= u.files[i].rel
        invariant Unseasoned(dir, seasons) == Unseasoned(Deepest(u.files), seasons)
        decreases |dir|
      {
        dir := Parent(dir);
      }
    }
    if dir == [] || dir !in own {
      return false, plan, true;
    }
    ok := true;
    var claimed, renamed := res.Claim([Base(dir)], true);
    var op := Op(dir, claimed);
    free := FirstFree(taken, res.onDisk, [Base(dir)], true, 1) != 0;
    FolderClaimed(before, op, taken, res.onDisk, [Base(dir)], room);
    var files := Relocate(u.files, op);
    plan := Plan([op], files);
    FolderRecords(u, plan);
  }

  /** A folder's name claimed in the library folder. */
  lemma FolderClaimed(before: seq<Op>, op: Op, taken: set<Rel>, onDisk: set<Rel>, wanted: Rel, room: nat)
    requires |wanted| == 1 && op.dst == Claimed(taken, onDisk, wanted, true)
    ensures var taken', free := TakenAfter(taken, onDisk, wanted, true), FirstFree(taken, onDisk, wanted, true, 1) != 0;
            && taken <= taken'
            && (free && Sound(before, taken, onDisk) ==> Sound(before + [op], taken', onDisk))
            && (!free ==> NoNameLeft(taken', onDisk))
            && (Roomy(taken, onDisk, room) && room > 0 ==> free && Roomy(taken', onDisk, room - 1))
  {
    hide FirstFree, Claimed, TakenAfter, Sound, Roomy, Closure, NoNameLeft, Fold;
    ClaimDoes(taken, onDisk, wanted, true, room);
    if FirstFree(taken, onDisk, wanted, true, 1) != 0 && Sound(before, taken, onDisk) {
      TopIsSound(before, op, taken, TakenAfter(taken, onDisk, wanted, true), onDisk);
    }
  }

  lemma FolderRecords(u: Unit, plan: Plan)
    requires |plan.ops| == 1 && |plan.files| == |u.files|
    requires forall i :: 0 <= i < |u.files| ==> plan.files[i].id == u.files[i].id && Carries(plan.ops[0], u.files[i].rel, plan.files[i].rel)
    ensures RecordsWhatHappens(u, plan)
  {
    forall i | 0 <= i < |u.files| ensures Carried(plan.ops, u.files[i].rel, plan.files[i].rel) {
      assert plan.ops[0] in plan.ops && Carries(plan.ops[0], u.files[i].rel, plan.files[i].rel);
    }
  }

  /** Where the files below a moved folder end up. */
  method Relocate(files: seq<UnitFile>, op: Op) returns (dests: seq<FileDest>)
    requires forall i :: 0 <= i < |files| ==> op.src <= files[i].rel
    ensures |dests| == |files|
    ensures forall i :: 0 <= i < |files| ==> dests[i].id == files[i].id && Carries(op, files[i].rel, dests[i].rel)
  {
    dests := [];
    for i := 0 to |files|
      invariant |dests| == i
      invariant forall j :: 0 <= j < i ==> dests[j].id == files[j].id && Carries(op, files[j].rel, dests[j].rel)
    {
      dests := dests + [FileDest(files[i].id, op.dst + files[i].rel[|op.src|..])];
    }
  }

  lemma TopIsSound(before: seq<Op>, op: Op, taken: set<Rel>, taken': set<Rel>, onDisk: set<Rel>)
    requires Sound(before, taken, onDisk)
    requires |op.dst| == 1 && Fold(op.dst) !in taken && op.dst !in onDisk
    requires taken' == taken + Closure(op.dst)
    ensures Sound(before + [op], taken', onDisk)
  {
    forall i | 0 <= i < |before| ensures Apart(before[i].dst, op.dst) {
      var p := before[i].dst;
      AboveIsTaken(op.dst, p);
      NotBelowLonger(p, op.dst);
    }
  }

  function SeasonName(n: int): string {
    if n == 0 then "Specials"
    else if n < 0 then "Season 01"
    else "Season " + (if n < 10 then "0" else "") + Itoa(n)
  }

  /** No two seasons share a folder, except that those below none are the first. */
  lemma SeasonsDiffer(m: int, n: int)
    ensures SeasonName(m) == SeasonName(n) <==> m == n || (m < 0 && n < 0) || (m < 0 && n == 1) || (m == 1 && n < 0)
    ensures SeasonName(0) == "Specials" && SeasonName(1) == "Season 01" && SeasonName(12) == "Season 12"
  {
    assert Itoa(1) == "1" && Itoa(12) == Itoa(1) + "2";
    if m > 0 && n > 0 && SeasonName(m) == SeasonName(n) {
      OneSeason(m, n);
    }
    if m > 0 && n < 0 && SeasonName(m) == SeasonName(n) {
      OneSeason(m, 1);
    }
    if m < 0 && n > 0 && SeasonName(m) == SeasonName(n) {
      OneSeason(1, n);
    }
  }

  /** A number that is written with two digits at least. */
  lemma {:induction false} FirstDigit(n: nat)
    requires n > 0
    ensures Itoa(n)[0] != '0' && (n >= 10 ==> |Itoa(n)| >= 2)
  {
    if n >= 10 {
      FirstDigit(n / 10);
    }
  }

  lemma OneSeason(m: nat, n: nat)
    requires m > 0 && n > 0 && SeasonName(m) == SeasonName(n)
    ensures m == n
  {
    FirstDigit(m);
    FirstDigit(n);
    var a, b := SeasonName(m)[7..], SeasonName(n)[7..];
    assert a == (if m < 10 then "0" else "") + Itoa(m) && b == (if n < 10 then "0" else "") + Itoa(n);
    assert a[0] == '0' <==> m < 10;
    assert b[0] == '0' <==> n < 10;
    if m < 10 {
      assert a[1..] == Itoa(m) && b[1..] == Itoa(n);
    }
    OneNumber(m, n);
  }

  /** Where a unit's files go: below its own claimed folder, or loose in the library folder. */
  function Below(u: Unit, top: Rel, f: UnitFile): Rel {
    if u.kind == Series then top + [SeasonName(f.season)] else top
  }

  function Depth(u: Unit, top: Rel): nat {
    |top| + (if u.kind == Series then 1 else 0) + 1
  }

  /** The operations of a unit planned file by file, after those of the titles before it. */
  ghost predicate FilesSound(before: seq<Op>, mine: seq<Op>, taken0: set<Rel>, taken: set<Rel>, onDisk: set<Rel>,
                             top: Rel, depth: nat) {
    && Sound(before + mine, taken, onDisk)
    && Reserved(before, taken0) && taken0 <= taken
    && |top| <= 1 && depth > |top| && (top == [] ==> depth == 1) && (top != [] ==> Fold(top) !in taken0)
    && forall i :: 0 <= i < |mine| ==> |mine[i].dst| == depth && top <= mine[i].dst
  }

  lemma OneMoreIsSound(before: seq<Op>, mine: seq<Op>, taken0: set<Rel>, taken: set<Rel>, onDisk: set<Rel>,
                       top: Rel, depth: nat, op: Op, taken': set<Rel>)
    requires FilesSound(before, mine, taken0, taken, onDisk, top, depth)
    requires |op.dst| == depth && top <= op.dst && Fold(op.dst) !in taken && op.dst !in onDisk
    requires taken' == taken + Closure(op.dst)
    ensures FilesSound(before, mine + [op], taken0, taken', onDisk, top, depth)
  {
    var all := before + mine;
    forall i | 0 <= i < |all| ensures Apart(all[i].dst, op.dst) {
      var p := all[i].dst;
      AboveIsTaken(op.dst, p);
      if i < |before| && top != [] {
        // p cannot lie in the unit's own folder, whose name was free when it was claimed.
        assert p == before[i].dst;
        AboveTakesTop(p, top, op.dst);
      } else {
        NotBelowLonger(p, op.dst);
      }
    }
    assert before + (mine + [op]) == all + [op];
  }

  lemma MoreTaken(before: seq<Op>, mine: seq<Op>, taken0: set<Rel>, taken: set<Rel>, onDisk: set<Rel>,
                  top: Rel, depth: nat, taken': set<Rel>)
    requires FilesSound(before, mine, taken0, taken, onDisk, top, depth) && taken <= taken'
    ensures FilesSound(before, mine, taken0, taken', onDisk, top, depth)
  {
  }

  function Stem(name: string): string {
    name[..ExtAt(name)]
  }

  /** strings.TrimSuffix */
  function TrimSuffix(s: string, suffix: string): string {
    if |s| >= |suffix| && s[|s| - |suffix|..] == suffix then s[..|s| - |suffix|] else s
  }

  /** Files are below their library's folder, and sidecars are named after their video. */
  predicate ValidUnit(u: Unit) {
    u.files != [] && forall i :: 0 <= i < |u.files| ==> ValidFile(u.files[i])
  }

  /** One name claimed for one operation: with a free claim the plan stays sound. */
  method ClaimFor(wanted: Rel, src: Rel, res: Reservations, ghost before: seq<Op>, ghost mine: seq<Op>, ghost taken0: set<Rel>,
                  ghost top: Rel, ghost depth: nat, ghost room: nat)
    returns (claimed: Rel, ghost free: bool)
    requires |wanted| == depth > |top| && top <= wanted
    modifies res`taken
    ensures claimed == Claimed(old(res.taken), res.onDisk, wanted, false)
    ensures res.taken == TakenAfter(old(res.taken), res.onDisk, wanted, false)
    ensures Parent(claimed) == Parent(wanted)
    ensures free && FilesSound(before, mine, taken0, old(res.taken), res.onDisk, top, depth) ==>
              FilesSound(before, mine + [Op(src, claimed)], taken0, res.taken, res.onDisk, top, depth)
    ensures FilesSound(before, mine, taken0, old(res.taken), res.onDisk, top, depth) ==>
              FilesSound(before, mine, taken0, res.taken, res.onDisk, top, depth)
    ensures !free ==> NoNameLeft(res.taken, res.onDisk)
    ensures old(res.taken) <= res.taken
    ensures Roomy(old(res.taken), res.onDisk, room) && room > 0 ==> free && Roomy(res.taken, res.onDisk, room - 1)
  {
    hide Roomy, NoNameLeft, FilesSound, Claimed, FirstFree, TakenAfter;
    ghost var taken := res.taken;
    var renamed;
    claimed, renamed := res.Claim(wanted, false);
    free := FirstFree(taken, res.onDisk, wanted, false, 1) != 0;
    FileClaimed(before, mine, taken0, Op(src, claimed), taken, res.onDisk, wanted, top, depth, room);
  }

  lemma FileClaimed(before: seq<Op>, mine: seq<Op>, taken0: set<Rel>, op: Op, taken: set<Rel>, onDisk: set<Rel>,
                    wanted: Rel, top: Rel, depth: nat, room: nat)
    requires |wanted| == depth > |top| && top <= wanted && op.dst == Claimed(taken, onDisk, wanted, false)
    ensures var taken', free := TakenAfter(taken, onDisk, wanted, false), FirstFree(taken, onDisk, wanted, false, 1) != 0;
            && taken <= taken' && Parent(op.dst) == Parent(wanted)
            && (FilesSound(before, mine, taken0, taken, onDisk, top, depth) ==>
                  FilesSound(before, mine, taken0, taken', onDisk, top, depth)
                  && (free ==> FilesSound(before, mine + [op], taken0, taken', onDisk, top, depth)))
            && (!free ==> NoNameLeft(taken', onDisk))
            && (Roomy(taken, onDisk, room) && room > 0 ==> free && Roomy(taken', onDisk, room - 1))
  {
    hide FirstFree, Claimed, TakenAfter, FilesSound, Roomy, Closure, NoNameLeft, Fold;
    var taken' := TakenAfter(taken, onDisk, wanted, false);
    ClaimDoes(taken, onDisk, wanted, false, room);
    assert op.dst == Parent(wanted) + [Base(op.dst)] && top <= Parent(wanted);
    if FilesSound(before, mine, taken0, taken, onDisk, top, depth) {
      MoreTaken(before, mine, taken0, taken, onDisk, top, depth, taken');
      if FirstFree(taken, onDisk, wanted, false, 1) != 0 {
        OneMoreIsSound(before, mine, taken0, taken, onDisk, top, depth, op, taken');
      }
    }
  }

  // ---------------------------------------------------------------------
  // File by file
  // ---------------------------------------------------------------------

  /** The name of a sidecar beside its video's new name: same new stem, its own suffix. */
  function SideName(f: UnitFile, to: Rel, j: nat): (name: Rel)
    requires f.rel != [] && to != [] && j < |f.sidecars| && Stem(Base(f.rel)) <= f.sidecars[j]
    ensures name != []
  {
    var name := Base(f.rel);
    Parent(to) + [TrimSuffix(Base(to), name[ExtAt(name)..]) + f.sidecars[j][|Stem(name)|..]]
  }

  /** A sidecar keeps what follows its video's stem, and takes the number that the video was given. */
  lemma SideFollows(f: UnitFile, parent: Rel, stem: string, ext: string, n: nat, j: nat, suffix: string)
    requires f.rel != [] && Base(f.rel) == stem + ext && n >= 1 && j < |f.sidecars| && f.sidecars[j] == stem + suffix
    requires (ext == "" && '.' !in stem) || (ext != "" && ext[0] == '.' && '.' !in ext[1..])
    ensures Stem(Base(f.rel)) == stem
    ensures SideName(f, Try(parent + [Base(f.rel)], false, n), j)
            == parent + [stem + (if n == 1 then "" else " (" + Itoa(n) + ")") + suffix]
  {
    CandidatesAre(stem, ext, n);
    var to, number := Try(parent + [Base(f.rel)], false, n), if n == 1 then "" else " (" + Itoa(n) + ")";
    assert Parent(to) == parent && Base(to) == (stem + number) + ext;
    assert Base(f.rel)[|stem|..] == ext && Base(f.rel)[..|stem|] == stem;
    assert ((stem + number) + ext)[|stem + number|..] == ext && ((stem + number) + ext)[..|stem + number|] == stem + number;
    assert (stem + suffix)[|stem|..] == suffix;
  }

  predicate ValidFile(f: UnitFile) {
    f.rel != [] && forall j :: 0 <= j < |f.sidecars| ==> Stem(Base(f.rel)) <= f.sidecars[j]
  }

  function SideOp(f: UnitFile, to: Rel, j: nat): Op
    requires ValidFile(f) && to != [] && j < |f.sidecars|
  {
    Op(Parent(f.rel) + [f.sidecars[j]], SideName(f, to, j))
  }

  /** What is taken when the j-th sidecar's turn comes, `taken` being so when the first one's does. */
  function TakenAtTurn(f: UnitFile, to: Rel, taken: set<Rel>, onDisk: set<Rel>, j: nat): set<Rel>
    requires ValidFile(f) && to != [] && j <= |f.sidecars|
  {
    if j == 0 then taken
    else TakenAfter(TakenAtTurn(f, to, taken, onDisk, j - 1), onDisk, SideName(f, to, j - 1), false)
  }

  /** The sidecar gets the very name it asks for: it was free at its turn, or no name was. */
  predicate GetsItsName(f: UnitFile, to: Rel, taken: set<Rel>, onDisk: set<Rel>, j: nat)
    requires ValidFile(f) && to != [] && j < |f.sidecars|
  {
    Claimed(TakenAtTurn(f, to, taken, onDisk, j), onDisk, SideName(f, to, j), false) == SideName(f, to, j)
  }

  /** The operations of the first j sidecars: those that get their names go along, in order. */
  function SideOps(f: UnitFile, to: Rel, taken: set<Rel>, onDisk: set<Rel>, j: nat): seq<Op>
    requires ValidFile(f) && to != [] && j <= |f.sidecars|
  {
    if j == 0 then []
    else SideOps(f, to, taken, onDisk, j - 1) + if GetsItsName(f, to, taken, onDisk, j - 1) then [SideOp(f, to, j - 1)] else []
  }

  lemma GetsItsNameIff(f: UnitFile, to: Rel, taken: set<Rel>, onDisk: set<Rel>, j: nat)
    requires ValidFile(f) && to != [] && j < |f.sidecars|
    ensures var t, name := TakenAtTurn(f, to, taken, onDisk, j), SideName(f, to, j);
            GetsItsName(f, to, taken, onDisk, j) <==> !BusyIn(t, onDisk, name) || NoneFree(t, onDisk, name, false)
  {
    hide BusyIn, SideName, TakenAtTurn, Claimed, NoneFree, Stem;
    ClaimedIs(TakenAtTurn(f, to, taken, onDisk, j), onDisk, SideName(f, to, j), false);
  }

  /** A sidecar whose name is free at its turn goes along. */
  lemma {:induction false} FreeSidecarGoes(f: UnitFile, to: Rel, taken: set<Rel>, onDisk: set<Rel>, j: nat, n: nat)
    requires ValidFile(f) && to != [] && j < n <= |f.sidecars|
    requires !BusyIn(TakenAtTurn(f, to, taken, onDisk, j), onDisk, SideName(f, to, j))
    ensures SideOp(f, to, j) in SideOps(f, to, taken, onDisk, n)
  {
    hide BusyIn, SideName, TakenAtTurn, GetsItsName, NoneFree, Stem, SideOp;
    if j < n - 1 {
      FreeSidecarGoes(f, to, taken, onDisk, j, n - 1);
    } else {
      GetsItsNameIff(f, to, taken, onDisk, j);
    }
  }

  /** Nothing else goes along: a sidecar with its video's new stem, whose name was free or had no free try. */
  lemma {:induction false} OnlySidecarsGo(f: UnitFile, to: Rel, taken: set<Rel>, onDisk: set<Rel>, n: nat, op: Op) returns (j: nat)
    requires ValidFile(f) && to != [] && n <= |f.sidecars| && op in SideOps(f, to, taken, onDisk, n)
    ensures j < n && op == SideOp(f, to, j)
    ensures var t, name := TakenAtTurn(f, to, taken, onDisk, j), SideName(f, to, j);
            !BusyIn(t, onDisk, name) || NoneFree(t, onDisk, name, false)
  {
    hide BusyIn, SideName, TakenAtTurn, GetsItsName, NoneFree, Stem, SideOp;
    if op in SideOps(f, to, taken, onDisk, n - 1) {
      j := OnlySidecarsGo(f, to, taken, onDisk, n - 1, op);
    } else {
      j := n - 1;
      GetsItsNameIff(f, to, taken, onDisk, j);
    }
  }

  /** The video first, then the sidecars that go along. */
  function FileOps(f: UnitFile, to: Rel, taken: set<Rel>, onDisk: set<Rel>, n: nat): (ops: seq<Op>)
    requires ValidFile(f) && to != [] && n <= |f.sidecars|
    ensures ops != [] && ops[0] == Op(f.rel, to)
  {
    [Op(f.rel, to)] + SideOps(f, to, taken, onDisk, n)
  }

  lemma BelowIs(u: Unit, top: Rel, f: UnitFile)
    ensures |Below(u, top, f)| + 1 == Depth(u, top) > |top| && top <= Below(u, top, f)
  {
  }

  lemma NoSidesYet(f: UnitFile, to: Rel, taken: set<Rel>, onDisk: set<Rel>)
    requires ValidFile(f) && to != []
    ensures FileOps(f, to, taken, onDisk, 0) == [Op(f.rel, to)] && TakenAtTurn(f, to, taken, onDisk, 0) == taken
  {
  }

  /** What the j-th sidecar adds. */
  lemma OneMoreSide(f: UnitFile, to: Rel, taken: set<Rel>, onDisk: set<Rel>, j: nat)
    requires ValidFile(f) && to != [] && j < |f.sidecars|
    ensures var t, name, side := TakenAtTurn(f, to, taken, onDisk, j), Base(f.rel), f.sidecars[j];
            var want := Parent(to) + [TrimSuffix(Base(to), name[ExtAt(name)..]) + side[|Stem(name)|..]];
            && TakenAtTurn(f, to, taken, onDisk, j + 1) == TakenAfter(t, onDisk, want, false)
            && FileOps(f, to, taken, onDisk, j + 1) == FileOps(f, to, taken, onDisk, j)
                 + if Claimed(t, onDisk, want, false) == want then [Op(Parent(f.rel) + [side], want)] else []
  {
    hide Claimed, TakenAfter, TrimSuffix, Stem;
  }

  /** src is the video or one of its sidecars. */
  predicate FileOf(f: UnitFile, src: Rel)
    requires f.rel != []
  {
    src == f.rel || exists j :: 0 <= j < |f.sidecars| && src == Parent(f.rel) + [f.sidecars[j]]
  }

  predicate FileOfTitle(u: Unit, src: Rel) {
    exists i :: 0 <= i < |u.files| && u.files[i].rel != [] && FileOf(u.files[i], src)
  }

  /** Every operation moves a video of the title or a sidecar of one. */
  predicate FileByFile(u: Unit, ops: seq<Op>) {
    forall k :: 0 <= k < |ops| ==> FileOfTitle(u, ops[k].src)
  }

  /** The two shapes of a plan: one operation, or files one by one. */
  predicate InShape(u: Unit, plan: Plan) {
    |plan.ops| == 1 || FileByFile(u, plan.ops)
  }

  lemma FileOpsAreFiles(u: Unit, i: nat, ops: seq<Op>, to: Rel, taken: set<Rel>, onDisk: set<Rel>)
    requires i < |u.files| && ValidFile(u.files[i]) && to != [] && FileByFile(u, ops)
    ensures FileByFile(u, ops + FileOps(u.files[i], to, taken, onDisk, |u.files[i].sidecars|))
  {
    hide SideOps, SideName, BusyIn, NoneFree, TakenAtTurn;
    var f, n := u.files[i], |u.files[i].sidecars|;
    var mine := FileOps(f, to, taken, onDisk, n);
    forall k | 0 <= k < |mine| ensures FileOf(f, mine[k].src) {
      if k > 0 {
        assert mine[k] in SideOps(f, to, taken, onDisk, n);
        var j := OnlySidecarsGo(f, to, taken, onDisk, n, mine[k]);
      }
    }
    forall k | 0 <= k < |ops + mine| ensures FileOfTitle(u, (ops + mine)[k].src) {
      if k < |ops| {
        assert (ops + mine)[k] == ops[k];
      } else {
        assert (ops + mine)[k] == mine[k - |ops|];
      }
    }
  }

  /** How many names a file, a title and a request ask for at most. */
  function FileClaims(f: UnitFile): nat {
    1 + |f.sidecars|
  }

  function ClaimsOf(files: seq<UnitFile>): nat {
    if files == [] then 0 else ClaimsOf(files[..|files| - 1]) + FileClaims(files[|files| - 1])
  }

  function UnitClaims(u: Unit): nat {
    1 + ClaimsOf(u.files)
  }

  function RequestClaims(units: seq<Unit>): nat {
    if units == [] then 0 else RequestClaims(units[..|units| - 1]) + UnitClaims(units[|units| - 1])
  }

  /** planFiles for one video and its sidecars; a sidecar whose name is taken stays behind. */
  method PlanFile(u: Unit, f: UnitFile, top: Rel, res: Reservations, ghost before: seq<Op>, ghost mine: seq<Op>, ghost taken0: set<Rel>,
                  ghost room: nat)
    returns (ops: seq<Op>, dest: FileDest, ghost free: bool)
    requires ValidFile(f)
    modifies res`taken
    ensures dest == FileDest(f.id, Claimed(old(res.taken), res.onDisk, Below(u, top, f) + [Base(f.rel)], false))
    ensures var taken := TakenAfter(old(res.taken), res.onDisk, Below(u, top, f) + [Base(f.rel)], false);
            && ops == FileOps(f, dest.rel, taken, res.onDisk, |f.sidecars|)
            && res.taken == TakenAtTurn(f, dest.rel, taken, res.onDisk, |f.sidecars|)
    ensures free && FilesSound(before, mine, taken0, old(res.taken), res.onDisk, top, Depth(u, top)) ==>
              FilesSound(before, mine + ops, taken0, res.taken, res.onDisk, top, Depth(u, top))
    ensures old(res.taken) <= res.taken && (!free ==> NoNameLeft(res.taken, res.onDisk))
    ensures Roomy(old(res.taken), res.onDisk, room) && room >= FileClaims(f) ==>
              free && Roomy(res.taken, res.onDisk, room - FileClaims(f))
  {
    hide FilesSound, Roomy, NoNameLeft, Claimed, TakenAfter, BusyIn, TrimSuffix, Stem;
    hide FileOps, TakenAtTurn, SideName, Below, Depth;
    ghost var taken := res.taken;
    var dir, name := Below(u, top, f), Base(f.rel);
    BelowIs(u, top, f);
    var claimed;
    claimed, free := ClaimFor(dir + [name], f.rel, res, before, mine, taken0, top, Depth(u, top), room);
    var newStem := TrimSuffix(Base(claimed), name[ExtAt(name)..]);
    var video := Op(f.rel, claimed);
    ops, dest := [video], FileDest(f.id, claimed);
    ghost var taken1 := res.taken;
    NoSidesYet(f, claimed, taken1, res.onDisk);
    for j := 0 to |f.sidecars|
      invariant ops == FileOps(f, claimed, taken1, res.onDisk, j) && res.taken == TakenAtTurn(f, claimed, taken1, res.onDisk, j)
      invariant taken <= res.taken && (!free ==> NoNameLeft(res.taken, res.onDisk))
      invariant free && FilesSound(before, mine, taken0, taken, res.onDisk, top, Depth(u, top)) ==>
                  FilesSound(before, mine + ops, taken0, res.taken, res.onDisk, top, Depth(u, top))
      invariant Roomy(taken, res.onDisk, room) && room >= FileClaims(f) ==> free && Roomy(res.taken, res.onDisk, room - 1 - j)
    {
      var side := f.sidecars[j];
      var sideDst := dir + [newStem + side[|Stem(name)|..]];
      OneMoreSide(f, claimed, taken1, res.onDisk, j);
      var src := Parent(f.rel) + [side];
      var got;
      ghost var sideFree;
      ghost var was, sofar := res.taken, ops;
      got, sideFree := ClaimFor(sideDst, src, res, before, mine + ops, taken0, top, Depth(u, top),
                                if room >= FileClaims(f) then room - 1 - j else 0);
      StillNoneLeft(was, res.taken, res.onDisk);
      free := free && sideFree;
      if got == sideDst {
        assert mine + sofar + [Op(src, got)] == mine + (sofar + [Op(src, got)]);
        ops := ops + [Op(src, got)];
      }
    }
  }

  /** Movies whose files all lie loose in the library folder stay loose. */
  predicate Loose(u: Unit) {
    u.kind == Movie && forall i | 0 <= i < |u.files| :: |u.files[i].rel| == 1
  }

  /** Where planFiles puts a title: loose, or in a folder of the name it claims. */
  function TopFolder(u: Unit, taken: set<Rel>, onDisk: set<Rel>): Rel {
    if Loose(u) then [] else Claimed(taken, onDisk, [u.folder], true)
  }

  /** Every video is recorded in its folder below `top`. */
  ghost predicate AllBelow(u: Unit, top: Rel, files: seq<FileDest>) {
    && |files| == |u.files|
    && forall i :: 0 <= i < |files| ==> files[i].rel != [] && Parent(files[i].rel) == Below(u, top, u.files[i])
  }

  /** Loose movies stay loose; any other title's videos lie in the claimed folder, a show's by season. */
  ghost predicate PlacedSo(u: Unit, taken: set<Rel>, onDisk: set<Rel>, files: seq<FileDest>) {
    && |files| == |u.files|
    && forall i :: 0 <= i < |files| ==>
         && files[i].rel != []
         && if u.kind == Movie && forall j :: 0 <= j < |u.files| ==> |u.files[j].rel| == 1 then |files[i].rel| == 1
            else Parent(files[i].rel)
                 == Claimed(taken, onDisk, [u.folder], true) + if u.kind == Series then [SeasonName(u.files[i].season)] else []
  }

  lemma AllBelowIs(u: Unit, taken: set<Rel>, onDisk: set<Rel>, files: seq<FileDest>)
    requires AllBelow(u, TopFolder(u, taken, onDisk), files)
    ensures PlacedSo(u, taken, onDisk, files)
  {
    hide Claimed, SeasonName;
    forall i | 0 <= i < |files| && Loose(u) ensures |files[i].rel| == 1 {
      assert |Parent(files[i].rel)| == 0;
    }
  }

  /** planFiles: loose movies stay loose; anything else gets its own claimed folder. */
  method PlanFiles(u: Unit, res: Reservations, ghost before: seq<Op>, ghost room: nat) returns (plan: Plan, ghost free: bool)
    requires ValidUnit(u)
    modifies res`taken
    ensures RecordsWhatHappens(u, plan) && AllBelow(u, TopFolder(u, old(res.taken), res.onDisk), plan.files)
    ensures PlacedSo(u, old(res.taken), res.onDisk, plan.files)
    ensures FileByFile(u, plan.ops)
    ensures free && Sound(before, old(res.taken), res.onDisk) ==> Sound(before + plan.ops, res.taken, res.onDisk)
    ensures old(res.taken) <= res.taken && (!free ==> NoNameLeft(res.taken, res.onDisk))
    ensures Roomy(old(res.taken), res.onDisk, room) && room >= UnitClaims(u) ==>
              free && Roomy(res.taken, res.onDisk, room - UnitClaims(u))
  {
    hide Roomy, NoNameLeft, Sound, RecordsWhatHappens, AllBelow, Claimed, TakenAfter, FirstFree, PlacedSo;
    ghost var taken0 := res.taken;
    var loose := Loose(u);
    var top: Rel := [];
    free := true;
    if !loose {
      var renamed;
      top, renamed := res.Claim([u.folder], true);
      free := FirstFree(taken0, res.onDisk, [u.folder], true, 1) != 0;
      TopClaimed(top, taken0, res.onDisk, [u.folder], room);
    }
    if free && Sound(before, taken0, res.onDisk) {
      StartsSound(before, taken0, res.taken, res.onDisk, top, Depth(u, top));
    }
    ghost var rest, was, left := true, res.taken, if room > 0 && !loose then room - 1 else room;
    plan, rest := PlanBelow(u, top, res, before, taken0, left);
    StillNoneLeft(was, res.taken, res.onDisk);
    free := free && rest;
    if Roomy(taken0, res.onDisk, room) && room >= UnitClaims(u) {
      LessRoom(res.taken, res.onDisk, left - ClaimsOf(u.files), room - UnitClaims(u));
    }
    AllBelowIs(u, taken0, res.onDisk, plan.files);
  }

  lemma TopClaimed(top: Rel, taken: set<Rel>, onDisk: set<Rel>, wanted: Rel, room: nat)
    requires |wanted| == 1 && top == Claimed(taken, onDisk, wanted, true)
    ensures var taken', free := TakenAfter(taken, onDisk, wanted, true), FirstFree(taken, onDisk, wanted, true, 1) != 0;
            && taken <= taken' && |top| == 1
            && (free ==> Fold(top) !in taken)
            && (!free ==> NoNameLeft(taken', onDisk))
            && (Roomy(taken, onDisk, room) && room > 0 ==> free && Roomy(taken', onDisk, room - 1))
  {
    hide FirstFree, Claimed, TakenAfter, Roomy, Closure, NoNameLeft, Fold, Try;
    ClaimDoes(taken, onDisk, wanted, true, room);
    assert |top| == |Parent(top)| + 1 == |Parent(wanted)| + 1;
  }

  lemma LessRoom(taken: set<Rel>, onDisk: set<Rel>, more: nat, less: nat)
    requires Roomy(taken, onDisk, more) && less <= more
    ensures Roomy(taken, onDisk, less)
  {
    hide BusyTries;
    forall rel: Rel, dir: bool | rel != [] ensures |BusyTries(taken, onDisk, rel, dir)| + less <= Candidates {
      assert |BusyTries(taken, onDisk, rel, dir)| + more <= Candidates;
    }
  }

  lemma StartsSound(before: seq<Op>, taken0: set<Rel>, taken: set<Rel>, onDisk: set<Rel>, top: Rel, depth: nat)
    requires Sound(before, taken0, onDisk) && taken0 <= taken
    requires |top| <= 1 && depth > |top| && (top == [] ==> depth == 1) && (top != [] ==> Fold(top) !in taken0)
    ensures FilesSound(before, [], taken0, taken, onDisk, top, depth)
  {
    assert before + [] == before;
  }

  /** The loop of planFiles over the title's videos. */
  method PlanBelow(u: Unit, top: Rel, res: Reservations, ghost before: seq<Op>, ghost taken0: set<Rel>, ghost room: nat)
    returns (plan: Plan, ghost free: bool)
    requires ValidUnit(u)
    modifies res`taken
    ensures RecordsWhatHappens(u, plan) && AllBelow(u, top, plan.files) && FileByFile(u, plan.ops)
    ensures free && FilesSound(before, [], taken0, old(res.taken), res.onDisk, top, Depth(u, top)) ==>
              FilesSound(before, plan.ops, taken0, res.taken, res.onDisk, top, Depth(u, top))
    ensures old(res.taken) <= res.taken && (!free ==> NoNameLeft(res.taken, res.onDisk))
    ensures Roomy(old(res.taken), res.onDisk, room) && room >= ClaimsOf(u.files) ==>
              free && Roomy(res.taken, res.onDisk, room - ClaimsOf(u.files))
  {
    hide Roomy, NoNameLeft, FilesSound, RecordedSoFar, RecordsWhatHappens, AllBelow;
    hide Claimed, TakenAfter, TakenAtTurn, FileOps, Below, FileClaims, ClaimsOf, Depth, FileByFile;
    var ops: seq<Op>, files: seq<FileDest> := [], [];
    free := true;
    NothingRecorded(u, top);
    NothingMoves(u);
    NoClaims();
    assert u.files[..0] == [];
    ghost var start := FilesSound(before, [], taken0, res.taken, res.onDisk, top, Depth(u, top));
    ghost var roomy := Roomy(res.taken, res.onDisk, room) && room >= ClaimsOf(u.files);
    for i := 0 to |u.files|
      invariant old(res.taken) <= res.taken && (!free ==> NoNameLeft(res.taken, res.onDisk))
      invariant |files| == i && RecordedSoFar(u, top, ops, files) && FileByFile(u, ops)
      invariant free && start ==> FilesSound(before, ops, taken0, res.taken, res.onDisk, top, Depth(u, top))
      invariant ClaimsOf(u.files[..i]) <= ClaimsOf(u.files)
      invariant roomy ==> free && Roomy(res.taken, res.onDisk, room - ClaimsOf(u.files[..i]))
    {
      var more, dest;
      ghost var oneFree, was, left := true, res.taken, if roomy then room - ClaimsOf(u.files[..i]) else 0;
      ClaimsSoFar(u.files, i);
      more, dest, oneFree := PlanFile(u, u.files[i], top, res, before, ops, taken0, left);
      RecordsOneMore(u, top, ops, more, files, dest);
      FileOpsAreFiles(u, i, ops, dest.rel, TakenAfter(was, res.onDisk, Below(u, top, u.files[i]) + [Base(u.files[i].rel)], false), res.onDisk);
      ops, files := ops + more, files + [dest];
      StillNoneLeft(was, res.taken, res.onDisk);
      free := free && oneFree;
    }
    assert u.files[..|u.files|] == u.files;
    plan := Plan(ops, files);
    AllRecorded(u, top, plan);
  }

  /** The videos recorded so far are where operations take them, in their folders below `top`. */
  ghost predicate RecordedSoFar(u: Unit, top: Rel, ops: seq<Op>, files: seq<FileDest>) {
    && |files| <= |u.files|
    && (forall j :: 0 <= j < |files| ==> files[j].id == u.files[j].id && Carried(ops, u.files[j].rel, files[j].rel))
    && (forall j :: 0 <= j < |files| ==> files[j].rel != [] && Parent(files[j].rel) == Below(u, top, u.files[j]))
  }

  lemma NothingMoves(u: Unit)
    ensures FileByFile(u, [])
  {
  }

  lemma NoClaims()
    ensures ClaimsOf([]) == 0
  {
  }

  lemma NothingRecorded(u: Unit, top: Rel)
    ensures RecordedSoFar(u, top, [], [])
  {
  }

  lemma RecordsOneMore(u: Unit, top: Rel, ops: seq<Op>, more: seq<Op>, files: seq<FileDest>, dest: FileDest)
    requires RecordedSoFar(u, top, ops, files) && |files| < |u.files| && dest.id == u.files[|files|].id
    requires u.files[|files|].rel != [] && more != [] && more[0] == Op(u.files[|files|].rel, dest.rel)
    requires dest.rel != [] && Parent(dest.rel) == Below(u, top, u.files[|files|])
    ensures RecordedSoFar(u, top, ops + more, files + [dest])
  {
    hide Carried, Below;
    var i := |files|;
    IsCarried(u.files[i], dest.rel, more);
    KeepsCarrying(ops, more, u.files[i].rel, dest.rel);
    forall j | 0 <= j < i ensures Carried(ops + more, u.files[j].rel, files[j].rel) {
      KeepsCarrying(ops, more, u.files[j].rel, files[j].rel);
    }
  }

  lemma AllRecorded(u: Unit, top: Rel, plan: Plan)
    requires RecordedSoFar(u, top, plan.ops, plan.files) && |plan.files| == |u.files|
    ensures RecordsWhatHappens(u, plan) && AllBelow(u, top, plan.files)
  {
  }

  lemma IsCarried(f: UnitFile, to: Rel, ops: seq<Op>)
    requires f.rel != [] && ops != [] && ops[0] == Op(f.rel, to)
    ensures Carried(ops, f.rel, to)
  {
    assert ops[0] in ops && Carries(ops[0], f.rel, to);
  }

  lemma {:induction false} ClaimsSoFar(files: seq<UnitFile>, i: nat)
    requires i < |files|
    ensures ClaimsOf(files[..i + 1]) == ClaimsOf(files[..i]) + FileClaims(files[i]) <= ClaimsOf(files)
    decreases |files| - i
  {
    assert files[..i + 1][..i] == files[..i];
    if i + 1 < |files| {
      ClaimsSoFar(files, i + 1);
    } else {
      assert files[..i + 1] == files;
    }
  }

  lemma KeepsCarrying(ops: seq<Op>, more: seq<Op>, rel: Rel, to: Rel)
    ensures Carried(ops, rel, to) || Carried(more, rel, to) ==> Carried(ops + more, rel, to)
  {
    if op :| op in ops && Carries(op, rel, to) {
      assert op in ops + more;
    } else if op :| op in more && Carries(op, rel, to) {
      assert op in ops + more;
    }
  }

  /** The part of planUnit that places a title: its own folder if it has one, else file by file. */
  method PlanUnit(u: Unit, seasons: set<string>, own: set<Rel>, res: Reservations, ghost before: seq<Op>, ghost room: nat)
    returns (plan: Plan, ghost free: bool)
    requires ValidUnit(u)
    modifies res`taken
    ensures RecordsWhatHappens(u, plan) && InShape(u, plan)
    ensures var dir := TitleFolder(u, seasons);
            if HasOwnFolder(u, seasons, own) then plan.ops == [Op(dir, Claimed(old(res.taken), res.onDisk, [Base(dir)], true))]
            else AllBelow(u, TopFolder(u, old(res.taken), res.onDisk), plan.files)
    ensures if exists dir :: DeepestOwn(u, seasons, dir) && dir in own
            then |plan.ops| == 1 && DeepestOwn(u, seasons, plan.ops[0].src) && plan.ops[0].src in own
            else PlacedSo(u, old(res.taken), res.onDisk, plan.files)
    ensures free && Sound(before, old(res.taken), res.onDisk) ==> Sound(before + plan.ops, res.taken, res.onDisk)
    ensures old(res.taken) <= res.taken && (!free ==> NoNameLeft(res.taken, res.onDisk))
    ensures Roomy(old(res.taken), res.onDisk, room) && room >= UnitClaims(u) ==>
              free && Roomy(res.taken, res.onDisk, room - UnitClaims(u))
  {
    hide Roomy, NoNameLeft, Sound, RecordsWhatHappens, AllBelow, Claimed, TakenAfter, TitleFolder, TopFolder, FileByFile;
    hide DeepestOwn, PlacedSo;
    var ok;
    ok, plan, free := PlanFolder(u, seasons, own, res, before, room);
    if !ok {
      plan, free := PlanFiles(u, res, before, room);
    } else if Roomy(old(res.taken), res.onDisk, room) && room >= UnitClaims(u) {
      LessRoom(res.taken, res.onDisk, room - 1, room - UnitClaims(u));
    }
  }

  function AllOps(plans: seq<Plan>): seq<Op> {
    if plans == [] then [] else AllOps(plans[..|plans| - 1]) + plans[|plans| - 1].ops
  }

  /**
   plan, over the eligible titles of a request: if every name in the destination has as many free tries
   as the request asks for names, no two destinations of the whole request are equal or nested,
   ignoring case, and none existed; and every catalogued file is recorded where the operations take it,
   by one operation or file by file.
   Without that much room it is still so as long as each claim finds a free try.
   */
  method PlanRequest(units: seq<Unit>, seasons: set<string>, own: seq<set<Rel>>, res: Reservations)
    returns (plans: seq<Plan>, ghost free: bool)
    requires |own| == |units| && forall i :: 0 <= i < |units| ==> ValidUnit(units[i])
    modifies res`taken
    ensures |plans| == |units|
    ensures Roomy(old(res.taken), res.onDisk, RequestClaims(units)) ==> free
    ensures free ==> AllApart(AllOps(plans)) && NoneOnDisk(AllOps(plans), res.onDisk)
    ensures !free ==> NoNameLeft(res.taken, res.onDisk)
    ensures forall i :: 0 <= i < |plans| ==> RecordsWhatHappens(units[i], plans[i]) && InShape(units[i], plans[i])
  {
    hide Roomy, NoNameLeft, Sound, AllApart, NoneOnDisk, RecordsWhatHappens, Claimed, TopFolder, TitleFolder;
    hide HasOwnFolder, AllBelow;
    hide UnitClaims, ValidUnit, AllOps, RequestClaims, InShape;
    NoRequest();
    assert units[..0] == [] && units[..|units|] == units;
    plans, free := [], true;
    NothingPlanned(res.taken, res.onDisk);
    ghost var total := RequestClaims(units);
    ghost var roomy := Roomy(res.taken, res.onDisk, total);
    for i := 0 to |units|
      invariant |plans| == i && (roomy ==> free)
      invariant if free then Sound(AllOps(plans), res.taken, res.onDisk) else NoNameLeft(res.taken, res.onDisk)
      invariant EachRecorded(units, plans)
      invariant RequestClaims(units[..i]) <= total
      invariant roomy ==> Roomy(res.taken, res.onDisk, total - RequestClaims(units[..i]))
    {
      var plan;
      ghost var unitFree, was := true, res.taken;
      RequestSoFar(units, i);
      plan, unitFree := PlanUnit(units[i], seasons, own[i], res, AllOps(plans), total - RequestClaims(units[..i]));
      StillNoneLeft(was, res.taken, res.onDisk);
      AllOpsWith(plans, plan);
      plans := plans + [plan];
      free := free && unitFree;
    }
    if free {
      SoundIs(AllOps(plans), res.taken, res.onDisk);
    }
  }

  ghost predicate EachRecorded(units: seq<Unit>, plans: seq<Plan>) {
    |plans| <= |units| && forall j :: 0 <= j < |plans| ==> RecordsWhatHappens(units[j], plans[j]) && InShape(units[j], plans[j])
  }

  lemma NoRequest()
    ensures AllOps([]) == [] && RequestClaims([]) == 0
  {
  }

  lemma AllOpsWith(plans: seq<Plan>, plan: Plan)
    ensures AllOps(plans + [plan]) == AllOps(plans) + plan.ops
  {
    assert (plans + [plan])[..|plans|] == plans;
  }

  lemma NothingPlanned(taken: set<Rel>, onDisk: set<Rel>)
    ensures Sound([], taken, onDisk)
  {
  }

  lemma SoundIs(ops: seq<Op>, taken: set<Rel>, onDisk: set<Rel>)
    requires Sound(ops, taken, onDisk)
    ensures AllApart(ops) && NoneOnDisk(ops, onDisk)
  {
  }

  lemma {:induction false} RequestSoFar(units: seq<Unit>, i: nat)
    requires i < |units|
    ensures RequestClaims(units[..i + 1]) == RequestClaims(units[..i]) + UnitClaims(units[i]) <= RequestClaims(units)
    decreases |units| - i
  {
    assert units[..i + 1][..i] == units[..i];
    if i + 1 < |units| {
      RequestSoFar(units, i + 1);
    } else {
      assert units[..i + 1] == units;
    }
  }

  /** A title's operations are among those of the request, after those of the titles before it. */
  lemma {:induction false} OpsOfPlan(plans: seq<Plan>, i: nat)
    requires i < |plans|
    ensures var a := |AllOps(plans[..i])|;
            a + |plans[i].ops| <= |AllOps(plans)| && AllOps(plans)[a..a + |plans[i].ops|] == plans[i].ops
  {
    var n := |plans| - 1;
    if i < n {
      OpsOfPlan(plans[..n], i);
      assert plans[..n][..i] == plans[..i];
      var a, ops := |AllOps(plans[..i])|, plans[i].ops;
      assert AllOps(plans)[a..a + |ops|] == AllOps(plans[..n])[a..a + |ops|];
    }
  }

  lemma {:induction false} OpsInOrder(plans: seq<Plan>, i: nat, j: nat)
    requires i < j <= |plans|
    ensures |AllOps(plans[..i])| + |plans[i].ops| <= |AllOps(plans[..j])|
  {
    assert plans[..j][..j - 1] == plans[..j - 1];
    if i < j - 1 {
      OpsInOrder(plans, i, j - 1);
    }
  }

  /** Destinations of a request lie apart, within a title and between titles. */
  lemma ApartAt(plans: seq<Plan>, i: nat, k: nat, j: nat, l: nat)
    requires i < |plans| && j < |plans| && k < |plans[i].ops| && l < |plans[j].ops| && (i < j || (i == j && k < l))
    requires AllApart(AllOps(plans))
    ensures Apart(plans[i].ops[k].dst, plans[j].ops[l].dst)
  {
    hide AllOps, Apart;
    var a, b := |AllOps(plans[..i])|, |AllOps(plans[..j])|;
    OpsOfPlan(plans, i);
    OpsOfPlan(plans, j);
    if i < j {
      OpsInOrder(plans, i, j);
    }
    assert AllOps(plans)[a + k] == AllOps(plans)[a..a + |plans[i].ops|][k] == plans[i].ops[k];
    assert AllOps(plans)[b + l] == AllOps(plans)[b..b + |plans[j].ops|][l] == plans[j].ops[l];
  }

  /** None of them exists. */
  lemma FreeAt(plans: seq<Plan>, onDisk: set<Rel>, i: nat, k: nat)
    requires i < |plans| && k < |plans[i].ops| && NoneOnDisk(AllOps(plans), onDisk)
    ensures plans[i].ops[k].dst !in onDisk
  {
    var a := |AllOps(plans[..i])|;
    OpsOfPlan(plans, i);
    assert AllOps(plans)[a + k] == AllOps(plans)[a..a + |plans[i].ops|][k];
  }

  // ---------------------------------------------------------------------
  // When no name is left
  // ---------------------------------------------------------------------

  const Film := UnitFile("id", ["film.mkv"], 0, ["film.srt"])

  /** The 999 names a subtitle could have. */
  ghost function AllItsNames(): set<Rel> {
    set n: nat | 1 <= n <= Candidates :: Try(["film.srt"], false, n)
  }

  /**
   Where all of them exist, a film whose own name is free takes its subtitle along onto the name that
   exists: claim answers the wanted name when it has no other.
   */
  lemma OntoAnExistingFile()
    ensures SideOps(Film, ["film.mkv"], Closure(["film.mkv"]), AllItsNames(), 1) == [Op(["film.srt"], ["film.srt"])]
    ensures ["film.srt"] in AllItsNames()
  {
    hide Fold, Closure, Try, BusyIn, NoneFree, SideName, GetsItsName, AllItsNames, ValidFile, TakenAtTurn;
    var to, taken: set<Rel>, onDisk := ["film.mkv"], Closure(["film.mkv"]), AllItsNames();
    FilmNames();
    AllExist(taken);
    NothingTakenYet(to, taken, onDisk);
    GetsItsNameIff(Film, to, taken, onDisk, 0);
    assert SideOps(Film, to, taken, onDisk, 0) == [];
    assert Parent(Film.rel) + [Film.sidecars[0]] == ["film.srt"];
  }

  lemma AllExist(taken: set<Rel>)
    ensures NoneFree(taken, AllItsNames(), ["film.srt"], false) && ["film.srt"] in AllItsNames()
  {
    hide Fold, Candidate;
    forall n: nat | 1 <= n <= Candidates ensures Try(["film.srt"], false, n) in AllItsNames() {
    }
    assert Try(["film.srt"], false, 1) in AllItsNames();
    TryOne(["film.srt"], false);
  }

  lemma NothingTakenYet(to: Rel, taken: set<Rel>, onDisk: set<Rel>)
    requires ValidFile(Film) && to != []
    ensures TakenAtTurn(Film, to, taken, onDisk, 0) == taken
  {
  }

  lemma FilmNames()
    ensures ValidFile(Film) && SideName(Film, ["film.mkv"], 0) == ["film.srt"]
  {
    var name := "film.mkv";
    assert name[4] == '.' && forall k :: 0 <= k < 8 && name[k] == '.' ==> k == 4;
    assert ExtAt(name) == 4;
    assert Stem(name) == "film";
    assert "film.mkv"[..4] == "film" && "film.mkv"[4..] == ".mkv" && "film.srt"[4..] == ".srt";
    assert "film" <= "film.srt";
    assert TrimSuffix("film.mkv", ".mkv") == "film";
    assert "film" + ".srt" == "film.srt";
    assert Base(["film.mkv"]) == name && Parent(["film.mkv"]) == [];
    assert SideName(Film, ["film.mkv"], 0) == [] + ["film" + ".srt"];
  }
}
