/**
 Cross-library merging (internal/library/movies.go: mergeRemote, TitleKeys): titles of external
 sources that duplicate another listed title are dropped. The list is any slice, with the functions
 that tell a title's library and its keys.
 */
module MergeRemote {
  import opened Collections
  import opened Decimal

  // ---------------------------------------------------------------------
  // Which titles stay
  // ---------------------------------------------------------------------

  /** The list as the merge sees it: of each title, whether it is from an external source, and its keys. */
  datatype Entry = Entry(remote: bool, keys: seq<string>)

  function LocalKeys(es: seq<Entry>, i: nat): set<string>
    requires i <= |es|
  {
    if i == 0 then {}
    else if es[i - 1].remote then LocalKeys(es, i - 1)
    else LocalKeys(es, i - 1) + Elems(es[i - 1].keys)
  }

  /** The keys that count as seen when the turn comes to the title at i. */
  function Seen(es: seq<Entry>, i: nat): set<string>
    requires i <= |es|
    decreases i, 0
  {
    if i == 0 then LocalKeys(es, |es|)
    else if es[i - 1].remote && Stays(es, i - 1) then Seen(es, i - 1) + Elems(es[i - 1].keys)
    else Seen(es, i - 1)
  }

  predicate Stays(es: seq<Entry>, i: nat)
    requires i < |es|
    decreases i, 1
  {
    es[i].remote ==> Elems(es[i].keys) !! Seen(es, i)
  }

  /** The titles that stay, of the first i, by their positions. */
  function StayTo(es: seq<Entry>, i: nat): (at: seq<nat>)
    requires i <= |es|
    ensures |at| <= i && forall k :: 0 <= k < |at| ==> at[k] < i
  {
    if i == 0 then [] else if Stays(es, i - 1) then StayTo(es, i - 1) + [i - 1] else StayTo(es, i - 1)
  }

  /** Two titles match when they share a key. */
  predicate Match(a: Entry, b: Entry) {
    !(Elems(a.keys) !! Elems(b.keys))
  }

  // ---------------------------------------------------------------------
  // The merge in place
  // ---------------------------------------------------------------------

  function Pick<T>(list: seq<T>, at: seq<nat>): seq<T>
    requires forall k :: 0 <= k < |at| ==> at[k] < |list|
  {
    if at == [] then [] else Pick(list, at[..|at| - 1]) + [list[at[|at| - 1]]]
  }

  function Entries<T>(list: seq<T>, libraries: set<string>, lib: T -> string, keys: T -> seq<string>): (es: seq<Entry>)
    ensures |es| == |list|
    ensures forall i :: 0 <= i < |list| ==> es[i] == Entry(lib(list[i]) in libraries, keys(list[i]))
  {
    if list == [] then []
    else
      var n := |list| - 1;
      Entries(list[..n], libraries, lib, keys) + [Entry(lib(list[n]) in libraries, keys(list[n]))]
  }

  lemma {:induction false} PickIs<T>(list: seq<T>, at: seq<nat>)
    requires forall k :: 0 <= k < |at| ==> at[k] < |list|
    ensures |Pick(list, at)| == |at| && forall k :: 0 <= k < |at| ==> Pick(list, at)[k] == list[at[k]]
  {
    if at != [] {
      PickIs(list, at[..|at| - 1]);
    }
  }

  lemma PickOneMore<T>(list: seq<T>, at: seq<nat>, k: nat)
    requires k < |list| && forall j :: 0 <= j < |at| ==> at[j] < |list|
    ensures Pick(list, at + [k]) == Pick(list, at) + [list[k]]
  {
    assert (at + [k])[..|at|] == at;
  }

  /** The first loop: the keys of the local titles. */
  method Locals<T>(list: array<T>, libraries: set<string>, lib: T -> string, keys: T -> seq<string>) returns (seen: set<string>)
    ensures seen == LocalKeys(Entries(list[..], libraries, lib, keys), list.Length)
  {
    seen := {};
    ghost var es := Entries(list[..], libraries, lib, keys);
    for i := 0 to list.Length
      invariant seen == LocalKeys(es, i)
    {
      assert es[i] == Entry(lib(list[i]) in libraries, keys(list[i]));
      if lib(list[i]) !in libraries {
        seen := Mark(seen, keys(list[i]));
      }
    }
  }

  method Mark(was: set<string>, ks: seq<string>) returns (seen: set<string>)
    ensures seen == was + Elems(ks)
  {
    seen := was;
    for i := 0 to |ks|
      invariant seen == was + Elems(ks[..i])
    {
      assert ks[..i + 1] == ks[..i] + [ks[i]];
      seen := seen + {ks[i]};
    }
    assert ks[..|ks|] == ks;
  }

  method AnySeen(seen: set<string>, ks: seq<string>) returns (dup: bool)
    ensures dup <==> !(Elems(ks) !! seen)
  {
    dup := false;
    for i := 0 to |ks|
      invariant dup <==> !(Elems(ks[..i]) !! seen)
    {
      assert ks[..i + 1] == ks[..i] + [ks[i]];
      assert Elems(ks[..i + 1]) == Elems(ks[..i]) + {ks[i]};
      dup := dup || ks[i] in seen;
    }
    assert ks[..|ks|] == ks;
  }

  lemma StepOfList<T>(list: seq<T>, es: seq<Entry>, i: nat)
    requires i < |es| == |list|
    ensures Seen(es, i + 1) == if es[i].remote && Stays(es, i) then Seen(es, i) + Elems(es[i].keys) else Seen(es, i)
    ensures Pick(list, StayTo(es, i + 1)) == if Stays(es, i) then Pick(list, StayTo(es, i)) + [list[i]] else Pick(list, StayTo(es, i))
  {
    if Stays(es, i) {
      PickOneMore(list, StayTo(es, i), i);
    }
  }

  lemma NothingYet<T>(list: seq<T>, es: seq<Entry>)
    ensures Pick(list, StayTo(es, 0)) == [] && Seen(es, 0) == LocalKeys(es, |es|)
  {
  }

  /** The second loop: out shares the list's array, and is never ahead of what is still to be read. */
  method Compact<T>(list: array<T>, libraries: set<string>, lib: T -> string, keys: T -> seq<string>) returns (n: nat)
    modifies list
    ensures n <= list.Length
    ensures list[..n] == Pick(old(list[..]), StayTo(Entries(old(list[..]), libraries, lib, keys), list.Length))
  {
    hide Seen, StayTo, Pick, Entries, LocalKeys;
    ghost var was := list[..];
    ghost var es := Entries(was, libraries, lib, keys);
    var seen := Locals(list, libraries, lib, keys);
    n := 0;
    NothingYet(was, es);
    for i := 0 to list.Length
      invariant n <= i && list[..n] == Pick(was, StayTo(es, i))
      invariant list[i..] == was[i..] && seen == Seen(es, i)
    {
      assert list[i] == list[i..][0] == was[i] && es[i] == Entry(lib(was[i]) in libraries, keys(was[i]));
      StepOfList(was, es, i);
      var item := list[i];
      if lib(item) in libraries {
        var ks := keys(item);
        var dup := AnySeen(seen, ks);
        if dup {
          assert list[i + 1..] == list[i..][1..];
          continue;
        }
        seen := Mark(seen, ks);
      }
      list[n] := item;
      n := n + 1;
      assert list[i + 1..] == was[i..][1..];
    }
  }

  lemma {:induction false} AllStay<T>(list: seq<T>, es: seq<Entry>, i: nat)
    requires i <= |es| == |list| && forall k :: 0 <= k < |es| ==> !es[k].remote
    ensures Pick(list, StayTo(es, i)) == list[..i]
  {
    hide Seen, Pick, StayTo;
    if i == 0 {
      NothingYet(list, es);
    } else {
      AllStay(list, es, i - 1);
      StepOfList(list, es, i - 1);
    }
  }

  /**
   mergeRemote, given the libraries of the external sources, or None if they could not be read: the
   titles that stay are moved to the front of the list, whose first n they are.
   */
  method MergeRemote<T>(list: array<T>, sources: Option<set<string>>, lib: T -> string, keys: T -> seq<string>) returns (n: nat)
    modifies list
    ensures n <= list.Length
    ensures sources.None? ==> n == list.Length && list[..] == old(list[..])
    ensures sources.Some? ==>
              var at := StayTo(Entries(old(list[..]), sources.value, lib, keys), list.Length);
              n == |at| && forall k :: 0 <= k < n ==> list[k] == old(list[..])[at[k]]
  {
    hide Pick, StayTo, Entries;
    ghost var was := list[..];
    if sources.Some? {
      PickIs(was, StayTo(Entries(was, sources.value, lib, keys), |was|));
    }
    if sources.None? || sources.value == {} {
      if sources.Some? {
        AllStay(list[..], Entries(list[..], sources.value, lib, keys), list.Length);
      }
      return list.Length;
    }
    n := Compact(list, sources.value, lib, keys);
    assert forall k :: 0 <= k < n ==> list[..n][k] == list[k];
  }

  // ---------------------------------------------------------------------
  // What is kept and what is dropped
  // ---------------------------------------------------------------------

  /** The titles keep their order, none is there twice, and every local title is there. */
  lemma {:induction false} StayRises(es: seq<Entry>, i: nat)
    requires i <= |es|
    ensures forall j, k :: 0 <= j < k < |StayTo(es, i)| ==> StayTo(es, i)[j] < StayTo(es, i)[k]
    ensures forall k :: k in StayTo(es, i) <==> 0 <= k < i && Stays(es, k)
    ensures forall k :: 0 <= k < i && !es[k].remote ==> k in StayTo(es, i)
  {
    if i > 0 {
      StayRises(es, i - 1);
    }
  }

  lemma {:induction false} LocalKeysAre(es: seq<Entry>, i: nat, key: string)
    requires i <= |es|
    ensures key in LocalKeys(es, i) <==> exists j :: 0 <= j < i && !es[j].remote && key in es[j].keys
  {
    if i > 0 {
      LocalKeysAre(es, i - 1, key);
    }
  }

  /** The keys seen are those of the local titles, and of the external ones that came before and stay. */
  lemma {:induction false} SeenAre(es: seq<Entry>, i: nat, key: string)
    requires i <= |es|
    ensures key in Seen(es, i) <==>
            exists j :: 0 <= j < |es| && (!es[j].remote || (j < i && Stays(es, j))) && key in es[j].keys
  {
    if i == 0 {
      LocalKeysAre(es, |es|, key);
    } else {
      SeenAre(es, i - 1, key);
    }
  }

  /** An external title stays exactly if it matches no local title and no external one before it that stays. */
  lemma StaysIff(es: seq<Entry>, i: nat)
    requires i < |es| && es[i].remote
    ensures Stays(es, i) <==>
            forall j :: 0 <= j < |es| && (!es[j].remote || (j < i && Stays(es, j))) ==> !Match(es[i], es[j])
  {
    forall key ensures key in Seen(es, i) <==>
                       exists j :: 0 <= j < |es| && (!es[j].remote || (j < i && Stays(es, j))) && key in es[j].keys
    {
      SeenAre(es, i, key);
    }
  }

  /** An external title that stays matches no other title that stays, and one that goes matches a title that stays. */
  lemma OncePerTitle(es: seq<Entry>, i: nat)
    requires i < |es| && es[i].remote
    ensures Stays(es, i) ==> forall j :: 0 <= j < |es| && j != i && Stays(es, j) ==> !Match(es[i], es[j])
    ensures !Stays(es, i) ==> exists j :: 0 <= j < |es| && j != i && Stays(es, j) && Match(es[i], es[j])
  {
    StaysIff(es, i);
    if Stays(es, i) {
      forall j | 0 <= j < |es| && j != i && Stays(es, j) ensures !Match(es[i], es[j]) {
        if es[j].remote && j > i {
          StaysIff(es, j);
          assert !Match(es[j], es[i]);
        }
      }
    }
  }

  // ---------------------------------------------------------------------
  // TitleKeys
  // ---------------------------------------------------------------------

  /** The keys of a title, its name already normalised; no year counts as 0. */
  function TitleKeys(name: string, year: Option<int>, tmdb: Option<int>): seq<string> {
    [TitleKey(name, YearOf(year))] + (if tmdb.Some? && tmdb.value > 0 then [IdKey(tmdb.value)] else [])
  }

  function TitleKey(name: string, year: int): string {
    "title:" + (name + (":" + Signed(year)))
  }

  function YearOf(year: Option<int>): int {
    if year.Some? then year.value else 0
  }

  /** The last colon is the one before the year, so that no name with colons passes for another. */
  lemma OneTitleKey(a: string, x: int, b: string, y: int)
    requires TitleKey(a, x) == TitleKey(b, y)
    ensures a == b && x == y
  {
    assert TitleKey(a, x)[6..] == a + (":" + Signed(x)) && TitleKey(b, y)[6..] == b + (":" + Signed(y));
    LastSeparator(':', a, Signed(x), b, Signed(y));
    OneSigned(x, y);
  }

  function IdKey(id: int): string {
    "tmdb:" + Signed(id)
  }

  lemma KeysApart(name: string, year: int, id: int, other: int)
    ensures TitleKey(name, year) != IdKey(id)
    ensures IdKey(id) == IdKey(other) <==> id == other
  {
    assert TitleKey(name, year)[1] == 'i' && IdKey(id)[1] == 'm';
    if IdKey(id) == IdKey(other) {
      assert IdKey(id)[5..] == Signed(id) && IdKey(other)[5..] == Signed(other);
      OneSigned(id, other);
    }
  }

  function IdOf(tmdb: Option<int>): (id: int)
    ensures id > 0 <==> tmdb.Some? && tmdb.value > 0
  {
    if tmdb.Some? then tmdb.value else 0
  }

  lemma KeysAre(name: string, year: Option<int>, tmdb: Option<int>)
    ensures Elems(TitleKeys(name, year, tmdb))
            == {TitleKey(name, YearOf(year))} + if IdOf(tmdb) > 0 then {IdKey(IdOf(tmdb))} else {}
  {
    var s := TitleKeys(name, year, tmdb);
    assert s[0] in s;
    if IdOf(tmdb) > 0 {
      assert s == [s[0], s[1]] && s[1] in s;
    } else {
      assert s == [s[0]];
    }
  }

  /** Two titles match exactly if they have the same name and year, none being the year 0, or the same positive TMDB id. */
  lemma MatchIff(a: string, x: Option<int>, m: Option<int>, b: string, y: Option<int>, n: Option<int>, r: bool, q: bool)
    ensures Match(Entry(r, TitleKeys(a, x, m)), Entry(q, TitleKeys(b, y, n)))
            <==> (a == b && (x == y || (x.None? && y == Some(0)) || (x == Some(0) && y.None?)))
                 || (m == n && m.Some? && m.value > 0)
  {
    hide TitleKeys, TitleKey, IdKey;
    KeysAre(a, x, m);
    KeysAre(b, y, n);
    KeysApart(a, YearOf(x), IdOf(n), IdOf(m));
    KeysApart(b, YearOf(y), IdOf(m), IdOf(n));
    if TitleKey(a, YearOf(x)) == TitleKey(b, YearOf(y)) {
      OneTitleKey(a, YearOf(x), b, YearOf(y));
    }
  }
}
