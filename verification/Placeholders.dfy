/**
 RewritePlaceholders (internal/db/provider.go): a query's ? placeholders become $1, $2, … outside
 quotes. A query is a sequence of bytes, written here as characters.
 */
module Placeholders {
  import opened Decimal

  // ---------------------------------------------------------------------
  // The scanner, byte by byte
  // ---------------------------------------------------------------------

  /** What the scanner knows before a byte: the open quote, if any, and whether a backslash escapes the byte. */
  datatype State = State(single: bool, double: bool, backtick: bool, escaped: bool)

  predicate Quoted(s: State) {
    s.single || s.double || s.backtick
  }

  function Next(s: State, ch: char): State {
    if s.escaped then s.(escaped := false)
    else if ch == '\\' && s.single then s.(escaped := true)
    else Toggle(s, ch)
  }

  /** A quote opens or closes unless it stands inside quotes of another kind. */
  function Toggle(s: State, ch: char): State {
    if ch == '\'' && !s.double && !s.backtick then s.(single := !s.single)
    else if ch == '"' && !s.single && !s.backtick then s.(double := !s.double)
    else if ch == '`' && !s.single && !s.double then s.(backtick := !s.backtick)
    else s
  }

  function StateAt(query: string, i: nat): State
    requires i <= |query|
  {
    if i == 0 then State(false, false, false, false) else Next(StateAt(query, i - 1), query[i - 1])
  }

  /** A question mark outside quotes. */
  predicate IsParam(query: string, i: nat)
    requires i < |query|
  {
    query[i] == '?' && !StateAt(query, i).escaped && !Quoted(StateAt(query, i))
  }

  function ParamsTo(query: string, i: nat): nat
    requires i <= |query|
  {
    if i == 0 then 0 else ParamsTo(query, i - 1) + if IsParam(query, i - 1) then 1 else 0
  }

  /** What is written for the byte at i. */
  function Written(query: string, i: nat): string
    requires i < |query|
  {
    if IsParam(query, i) then "$" + Itoa(ParamsTo(query, i) + 1) else [query[i]]
  }

  /** What is written for the first i bytes. */
  function RewrittenTo(query: string, i: nat): string
    requires i <= |query|
  {
    if i == 0 then [] else RewrittenTo(query, i - 1) + Written(query, i - 1)
  }

  function Rewritten(query: string): string {
    RewrittenTo(query, |query|)
  }

  /** What the loop has done when it comes to the byte at i. */
  ghost predicate Scanned(query: string, i: nat, out: string, parameter: nat, q: State) {
    && i <= |query| && out == RewrittenTo(query, i) && parameter == ParamsTo(query, i)
    && !q.escaped && (i < |query| ==> StateAt(query, i) == q)
  }

  lemma ScanByte(query: string, i: nat, out: string, parameter: nat, q: State)
    requires Scanned(query, i, out, parameter, q) && i < |query| && !(query[i] == '\\' && q.single && i + 1 < |query|)
    ensures IsParam(query, i) <==> query[i] == '?' && !Quoted(q)
    ensures IsParam(query, i) ==> Scanned(query, i + 1, out + "$" + Itoa(parameter + 1), parameter + 1, q)
    ensures !IsParam(query, i) ==> Scanned(query, i + 1, out + [query[i]], parameter, Toggle(q, query[i]))
  {
    assert out + "$" + Itoa(parameter + 1) == out + ("$" + Itoa(parameter + 1));
  }

  lemma ScanEscape(query: string, i: nat, out: string, parameter: nat, q: State)
    requires Scanned(query, i, out, parameter, q) && i + 1 < |query| && query[i] == '\\' && q.single
    ensures Scanned(query, i + 2, out + [query[i]] + [query[i + 1]], parameter, q)
  {
    assert StateAt(query, i + 1) == q.(escaped := true);
    assert RewrittenTo(query, i + 1) == out + [query[i]] && ParamsTo(query, i + 1) == parameter;
  }

  /** The loop of RewritePlaceholders; an escaped byte is copied along with its backslash. */
  method RewritePlaceholders(query: string) returns (out: string)
    ensures out == Rewritten(query)
  {
    out := [];
    var parameter: nat := 0;
    var inSingle, inDouble, inBacktick := false, false, false;
    var i := 0;
    while i < |query|
      invariant Scanned(query, i, out, parameter, State(inSingle, inDouble, inBacktick, false))
    {
      var ch := query[i];
      if ch == '\\' && inSingle && i + 1 < |query| {
        ScanEscape(query, i, out, parameter, State(inSingle, inDouble, inBacktick, false));
        out := out + [ch];
        i := i + 1;
        out := out + [query[i]];
        i := i + 1;
        continue;
      }
      ScanByte(query, i, out, parameter, State(inSingle, inDouble, inBacktick, false));
      if ch == '\'' {
        if !inDouble && !inBacktick {
          inSingle := !inSingle;
        }
      } else if ch == '"' {
        if !inSingle && !inBacktick {
          inDouble := !inDouble;
        }
      } else if ch == '`' {
        if !inSingle && !inDouble {
          inBacktick := !inBacktick;
        }
      } else if ch == '?' {
        if !inSingle && !inDouble && !inBacktick {
          parameter := parameter + 1;
          out := out + "$" + Itoa(parameter);
          i := i + 1;
          continue;
        }
      }
      out := out + [ch];
      i := i + 1;
    }
  }

  // ---------------------------------------------------------------------
  // What is quoted
  // ---------------------------------------------------------------------

  /** How many backslashes stand directly before k, behind p. */
  function Backslashes(query: string, p: nat, k: nat): nat
    requires k <= |query|
  {
    if k <= p + 1 || query[k - 1] != '\\' then 0 else 1 + Backslashes(query, p, k - 1)
  }

  /** The byte at k closes the quote that opened at p: the same byte, and in single quotes not escaped. */
  predicate Closes(query: string, p: nat, k: nat)
    requires p < k < |query|
  {
    query[k] == query[p] && !(query[p] == '\'' && Backslashes(query, p, k) % 2 == 1)
  }

  /** A quote at p, where one can open, is still open before i. */
  ghost predicate OpenFrom(query: string, p: nat, i: nat)
    requires p < i <= |query|
  {
    query[p] in {'\'', '"', '`'} && forall k :: p < k < i ==> !Closes(query, p, k)
  }

  /** i is inside quotes: a quote that is not itself inside quotes opened before it and has not closed. */
  ghost predicate Inside(query: string, i: nat)
    requires i <= |query|
    decreases i
  {
    exists p: nat :: p < i && OpenFrom(query, p, i) && !Inside(query, p)
  }

  /** The scanner inside quotes that opened at p. */
  ghost predicate Reading(query: string, p: nat, i: nat)
    requires p < i <= |query|
  {
    StateAt(query, i) == State(query[p] == '\'', query[p] == '"', query[p] == '`',
                               query[p] == '\'' && Backslashes(query, p, i) % 2 == 1)
  }

  /** Nothing is escaped but in single quotes. */
  lemma {:induction false} EscapedIsSingle(query: string, i: nat)
    requires i <= |query|
    ensures StateAt(query, i).escaped ==> StateAt(query, i).single
  {
    if i > 0 {
      EscapedIsSingle(query, i - 1);
    }
  }

  lemma {:induction false} StillReading(query: string, p: nat, i: nat)
    requires p < i <= |query| && OpenFrom(query, p, i)
    requires !Quoted(StateAt(query, p)) && !StateAt(query, p).escaped
    ensures Reading(query, p, i)
  {
    if i == p + 1 {
      assert StateAt(query, i) == Next(StateAt(query, p), query[p]);
    } else {
      StillReading(query, p, i - 1);
      assert StateAt(query, i) == Next(StateAt(query, i - 1), query[i - 1]);
      assert !Closes(query, p, i - 1);
    }
  }

  /** The flags of the scanner say just what is inside quotes. */
  lemma {:induction false} InsideIff(query: string, i: nat)
    requires i <= |query|
    ensures Inside(query, i) <==> Quoted(StateAt(query, i))
    decreases i
  {
    if Inside(query, i) {
      var p: nat :| p < i && OpenFrom(query, p, i) && !Inside(query, p);
      InsideIff(query, p);
      EscapedIsSingle(query, p);
      StillReading(query, p, i);
    }
    if i > 0 && Quoted(StateAt(query, i)) {
      InsideIff(query, i - 1);
      if Inside(query, i - 1) {
        var p: nat :| p < i - 1 && OpenFrom(query, p, i - 1) && !Inside(query, p);
        InsideIff(query, p);
        EscapedIsSingle(query, p);
        StillReading(query, p, i - 1);
        assert OpenFrom(query, p, i);
      } else {
        EscapedIsSingle(query, i - 1);
        assert OpenFrom(query, i - 1, i);
      }
    }
  }

  /** A placeholder is a question mark outside quotes. */
  lemma ParamIff(query: string, i: nat)
    requires i < |query|
    ensures IsParam(query, i) <==> query[i] == '?' && !Inside(query, i)
  {
    InsideIff(query, i);
    EscapedIsSingle(query, i);
  }

  // ---------------------------------------------------------------------
  // What is rewritten
  // ---------------------------------------------------------------------

  lemma {:induction false} StatePrefix(a: string, b: string, i: nat)
    requires i <= |a| && a <= b
    ensures StateAt(b, i) == StateAt(a, i)
  {
    if i > 0 {
      StatePrefix(a, b, i - 1);
    }
  }

  /** Bytes that are neither quotes nor backslashes leave an open scanner as it is. */
  lemma {:induction false} NothingOpens(out: string, a: nat, b: nat)
    requires a <= b <= |out| && !StateAt(out, a).escaped
    requires forall j :: a <= j < b ==> out[j] == '$' || IsDigit(out[j])
    ensures StateAt(out, b) == StateAt(out, a)
  {
    if a < b {
      NothingOpens(out, a, b - 1);
    }
  }

  lemma PrefixesChain(a: string, b: string, w: string, c: string)
    requires a <= b && c == b + w
    ensures a <= c
  {
    assert c[..|a|] == b[..|a|] == a;
  }

  lemma {:induction false} Grows(query: string, i: nat, j: nat)
    requires i <= j <= |query|
    ensures RewrittenTo(query, i) <= RewrittenTo(query, j)
  {
    hide Written;
    if i < j {
      Grows(query, i, j - 1);
      PrefixesChain(RewrittenTo(query, i), RewrittenTo(query, j - 1), Written(query, j - 1), RewrittenTo(query, j));
    }
  }

  /** w stands in out at p. */
  ghost predicate StandsAt(out: string, p: nat, w: string) {
    p + |w| <= |out| && forall k :: p <= k < p + |w| ==> out[k] == w[k - p]
  }

  lemma StandsIn(a: string, w: string, out: string)
    requires a + w <= out
    ensures StandsAt(out, |a|, w)
  {
    forall k | |a| <= k < |a| + |w| ensures out[k] == w[k - |a|] {
      assert (a + w)[k] == w[k - |a|];
    }
  }

  /** Where the byte at i is written. */
  lemma WrittenAt(query: string, i: nat, out: string)
    requires i < |query| && RewrittenTo(query, i + 1) <= out
    ensures StandsAt(out, |RewrittenTo(query, i)|, Written(query, i)) && RewrittenTo(query, i) <= out
    ensures |RewrittenTo(query, i + 1)| == |RewrittenTo(query, i)| + |Written(query, i)|
  {
    StandsIn(RewrittenTo(query, i), Written(query, i), out);
  }

  /** A dollar sign and digits. */
  ghost predicate IsNumber(w: string) {
    |w| > 1 && w[0] == '$' && forall j :: 1 <= j < |w| ==> IsDigit(w[j])
  }

  lemma NumberWritten(n: nat)
    ensures IsNumber("$" + Itoa(n))
  {
    NumberOf(Itoa(n));
  }

  lemma NumberOf(digits: string)
    requires digits != [] && forall k :: 0 <= k < |digits| ==> IsDigit(digits[k])
    ensures IsNumber("$" + digits)
  {
    forall j | 1 <= j < |"$" + digits| ensures IsDigit(("$" + digits)[j]) {
      assert ("$" + digits)[j] == digits[j - 1];
    }
  }

  lemma StateAfterNumber(out: string, p: nat, w: string)
    requires StandsAt(out, p, w) && IsNumber(w) && !StateAt(out, p).escaped
    ensures forall j :: p <= j <= p + |w| ==> StateAt(out, j) == StateAt(out, p)
  {
    forall j | p <= j <= p + |w| ensures StateAt(out, j) == StateAt(out, p) {
      forall k | p <= k < j ensures out[k] == '$' || IsDigit(out[k]) {
        assert out[k] == w[k - p];
      }
      NothingOpens(out, p, j);
    }
  }

  lemma OpenAtFirst(query: string, out: string)
    ensures RewrittenTo(query, 0) == [] && StateAt(out, 0) == StateAt(query, 0)
  {
  }

  /** The output opens and closes quotes where the query does. */
  lemma {:induction false} SameQuotes(query: string, i: nat, out: string)
    requires i <= |query| && RewrittenTo(query, i) <= out
    ensures StateAt(out, |RewrittenTo(query, i)|) == StateAt(query, i)
  {
    hide Itoa, Written, StateAt, RewrittenTo;
    if i == 0 {
      OpenAtFirst(query, out);
    } else {
      WrittenAt(query, i - 1, out);
      SameQuotes(query, i - 1, out);
      SameQuotesByte(query, i - 1, out, |RewrittenTo(query, i - 1)|);
    }
  }

  lemma SameQuotesByte(query: string, i: nat, out: string, p: nat)
    requires i < |query| && StandsAt(out, p, Written(query, i)) && StateAt(out, p) == StateAt(query, i)
    ensures StateAt(out, p + |Written(query, i)|) == StateAt(query, i + 1)
  {
    if IsParam(query, i) {
      NumberWritten(ParamsTo(query, i) + 1);
      StateAfterNumber(out, p, Written(query, i));
    } else {
      assert out[p] == query[i];
    }
  }

  /** Which byte of the query an output byte was written for. */
  lemma {:induction false} ByteOf(query: string, i: nat, j: nat) returns (k: nat)
    requires i <= |query| && j < |RewrittenTo(query, i)|
    ensures k < i && |RewrittenTo(query, k)| <= j < |RewrittenTo(query, k + 1)|
  {
    if j < |RewrittenTo(query, i - 1)| {
      k := ByteOf(query, i - 1, j);
    } else {
      k := i - 1;
    }
  }

  lemma NoneLeftOfByte(query: string, i: nat, out: string, p: nat)
    requires i < |query| && StandsAt(out, p, Written(query, i)) && StateAt(out, p) == StateAt(query, i)
    ensures forall j :: p <= j < p + |Written(query, i)| ==> !IsParam(out, j)
  {
    hide Itoa, ParamsTo;
    var w := Written(query, i);
    forall j | p <= j < p + |w| ensures !IsParam(out, j) {
      assert out[j] == w[j - p];
      if IsParam(query, i) {
        NumberWritten(ParamsTo(query, i) + 1);
      }
    }
  }

  /** No placeholder is left. */
  lemma NoneLeft(query: string, j: nat)
    requires j < |Rewritten(query)|
    ensures !IsParam(Rewritten(query), j)
  {
    hide Itoa, Written, StateAt;
    var i := ByteOf(query, |query|, j);
    Grows(query, i + 1, |query|);
    WrittenAt(query, i, Rewritten(query));
    SameQuotes(query, i, Rewritten(query));
    NoneLeftOfByte(query, i, Rewritten(query), |RewrittenTo(query, i)|);
  }

  lemma {:induction false} NothingToDo(query: string, i: nat)
    requires i <= |query| && forall j :: 0 <= j < |query| ==> !IsParam(query, j)
    ensures RewrittenTo(query, i) == query[..i]
  {
    if i > 0 {
      NothingToDo(query, i - 1);
    }
  }

  /** Rewriting a rewritten query changes nothing, so that the node store and the driver may both do it. */
  lemma RewritingTwice(query: string)
    ensures Rewritten(Rewritten(query)) == Rewritten(query)
  {
    var out := Rewritten(query);
    forall j | 0 <= j < |out| ensures !IsParam(out, j) {
      NoneLeft(query, j);
    }
    NothingToDo(out, |out|);
    assert out[..|out|] == out;
  }

  // ---------------------------------------------------------------------
  // What the database reads
  // ---------------------------------------------------------------------

  /** Where the digits from j on end. */
  function RunEnd(out: string, j: nat): (e: nat)
    requires j <= |out|
    ensures j <= e <= |out|
    decreases |out| - j
  {
    if j < |out| && IsDigit(out[j]) then RunEnd(out, j + 1) else j
  }

  /** The number that the digits from a up to b say. */
  function Value(out: string, a: nat, b: nat): nat
    requires a <= b <= |out|
  {
    if a == b then 0 else 10 * Value(out, a, b - 1) + DigitValue(out[b - 1])
  }

  function DigitValue(ch: char): nat {
    if IsDigit(ch) then ch as int - '0' as int else 0
  }

  /** A dollar sign outside quotes with a digit after it. */
  predicate IsNumbered(out: string, j: nat)
    requires j < |out|
  {
    out[j] == '$' && j + 1 < |out| && IsDigit(out[j + 1]) && !StateAt(out, j).escaped && !Quoted(StateAt(out, j))
  }

  function NumberAt(out: string, j: nat): nat
    requires j < |out|
  {
    Value(out, j + 1, RunEnd(out, j + 1))
  }

  /** The parameter numbers that begin before j. */
  function NumbersTo(out: string, j: nat): seq<nat>
    requires j <= |out|
  {
    if j == 0 then []
    else if IsNumbered(out, j - 1) then NumbersTo(out, j - 1) + [NumberAt(out, j - 1)]
    else NumbersTo(out, j - 1)
  }

  function UpTo(n: nat): (s: seq<nat>)
    ensures |s| == n
  {
    if n == 0 then [] else UpTo(n - 1) + [n]
  }

  lemma {:induction false} ValueOfItoa(n: nat, out: string, p: nat)
    requires StandsAt(out, p, Itoa(n))
    ensures Value(out, p, p + |Itoa(n)|) == n
  {
    assert out[p + |Itoa(n)| - 1] == Itoa(n)[|Itoa(n)| - 1];
    if n >= 10 {
      assert forall k :: p <= k < p + |Itoa(n / 10)| ==> out[k] == Itoa(n)[k - p];
      ValueOfItoa(n / 10, out, p);
    } else {
      assert Value(out, p, p) == 0;
    }
  }

  lemma {:induction false} MoreDigits(out: string, a: nat, b: nat, c: nat)
    requires a <= b <= c <= |out|
    ensures c > b ==> Value(out, a, c) >= 10 * Value(out, a, b)
  {
    if b < c {
      MoreDigits(out, a, b, c - 1);
    }
  }

  lemma {:induction false} RunGoesOn(out: string, a: nat, b: nat)
    requires a <= b <= |out| && forall k :: a <= k < b ==> IsDigit(out[k])
    ensures RunEnd(out, a) == RunEnd(out, b)
    decreases b - a
  {
    if a < b {
      RunGoesOn(out, a + 1, b);
    }
  }

  /** Digits that say n are read as n, unless more digits follow them. */
  lemma ReadAt(out: string, p: nat, b: nat, n: nat)
    requires p + 1 <= b <= |out| && (forall k :: p + 1 <= k < b ==> IsDigit(out[k])) && Value(out, p + 1, b) == n > 0
    ensures NumberAt(out, p) == n <==> RunEnd(out, b) == b
  {
    RunGoesOn(out, p + 1, b);
    MoreDigits(out, p + 1, b, RunEnd(out, b));
  }

  /** A digit of the query's own right after the byte. */
  predicate RunsOn(query: string, i: nat)
    requires i < |query|
  {
    i + 1 < |query| && IsDigit(query[i + 1])
  }

  lemma RestOfRun(query: string, i: nat, out: string)
    requires i < |query| && RewrittenTo(query, i + 1) <= out
    requires if i + 1 < |query| then RewrittenTo(query, i + 2) <= out else |out| == |RewrittenTo(query, i + 1)|
    ensures RunEnd(out, |RewrittenTo(query, i + 1)|) == |RewrittenTo(query, i + 1)| <==> !RunsOn(query, i)
  {
    hide Itoa, RewrittenTo, StateAt, ParamsTo;
    if i + 1 < |query| {
      WrittenAt(query, i + 1, out);
      assert out[|RewrittenTo(query, i + 1)|] == Written(query, i + 1)[0];
    }
  }

  lemma {:induction false} NoNumbers(out: string, a: nat, b: nat)
    requires a <= b <= |out| && forall j :: a <= j < b ==> !IsNumbered(out, j)
    ensures NumbersTo(out, b) == NumbersTo(out, a)
  {
    if a < b {
      NoNumbers(out, a, b - 1);
    }
  }

  /** The query itself has no dollar sign outside quotes. */
  ghost predicate NoDollar(query: string) {
    forall i :: 0 <= i < |query| && query[i] == '$' ==> StateAt(query, i).escaped || Quoted(StateAt(query, i))
  }

  /** What was written for a byte adds its number to those read before, if it is a placeholder. */
  ghost predicate Adds(out: string, p: nat, next: nat, isParam: bool, n: nat, clear: bool)
    requires p < next <= |out|
  {
    if isParam then NumbersTo(out, next) == NumbersTo(out, p) + [NumberAt(out, p)] && (NumberAt(out, p) == n <==> clear)
    else NumbersTo(out, next) == NumbersTo(out, p)
  }

  lemma AddsNumber(out: string, p: nat, b: nat, n: nat)
    requires p + 1 < b <= |out| && out[p] == '$' && (forall k :: p + 1 <= k < b ==> IsDigit(out[k])) && Value(out, p + 1, b) == n > 0
    requires !StateAt(out, p).escaped && !Quoted(StateAt(out, p))
    ensures Adds(out, p, b, true, n, RunEnd(out, b) == b)
  {
    ReadAt(out, p, b, n);
    assert IsNumbered(out, p);
    NoNumbers(out, p + 1, b);
  }

  lemma DigitsStand(out: string, p: nat, digits: string)
    requires digits != [] && (forall k :: 0 <= k < |digits| ==> IsDigit(digits[k])) && StandsAt(out, p, "$" + digits)
    ensures out[p] == '$' && StandsAt(out, p + 1, digits)
    ensures forall k :: p + 1 <= k < p + 1 + |digits| ==> IsDigit(out[k])
  {
    forall k | p + 1 <= k < p + 1 + |digits| ensures out[k] == digits[k - p - 1] {
      assert out[k] == ("$" + digits)[k - p];
    }
  }

  /** The number written for the n-th placeholder. */
  lemma AddsWritten(out: string, p: nat, n: nat, w: string)
    requires n > 0 && w == "$" + Itoa(n) && StandsAt(out, p, w)
    requires !StateAt(out, p).escaped && !Quoted(StateAt(out, p))
    ensures Adds(out, p, p + |w|, true, n, RunEnd(out, p + |w|) == p + |w|)
  {
    hide Itoa, Value, StateAt, RunEnd;
    DigitsStand(out, p, Itoa(n));
    ValueOfItoa(n, out, p + 1);
    AddsNumber(out, p, p + 1 + |Itoa(n)|, n);
  }

  lemma AddsNothing(query: string, i: nat, out: string, p: nat, n: nat, clear: bool)
    requires i < |query| && NoDollar(query) && p < |out| && out[p] == query[i] && StateAt(out, p) == StateAt(query, i)
    ensures !IsParam(query, i) ==> Adds(out, p, p + 1, false, n, clear)
  {
  }

  lemma AddsByte(query: string, i: nat, out: string, p: nat, w: string)
    requires i < |query| && NoDollar(query) && w == Written(query, i) && StandsAt(out, p, w) && StateAt(out, p) == StateAt(query, i)
    ensures w != []
    ensures Adds(out, p, p + |w|, IsParam(query, i), ParamsTo(query, i) + 1, RunEnd(out, p + |w|) == p + |w|)
  {
    hide Itoa, StateAt, RunEnd, Adds, NumbersTo, ParamsTo;
    if IsParam(query, i) {
      AddsWritten(out, p, ParamsTo(query, i) + 1, w);
    } else {
      assert w == [query[i]];
      AddsNothing(query, i, out, p, ParamsTo(query, i) + 1, RunEnd(out, p + 1) == p + 1);
    }
  }

  /** What a byte adds to the numbers read. */
  lemma NumbersOfByte(query: string, i: nat, out: string, p: nat)
    requires i < |query| && NoDollar(query) && p == |RewrittenTo(query, i)| && RewrittenTo(query, i + 1) <= out
    requires if i + 1 < |query| then RewrittenTo(query, i + 2) <= out else |out| == |RewrittenTo(query, i + 1)|
    ensures p < |RewrittenTo(query, i + 1)|
    ensures Adds(out, p, |RewrittenTo(query, i + 1)|, IsParam(query, i), ParamsTo(query, i) + 1, !RunsOn(query, i))
  {
    hide Itoa, StateAt, Value, RunEnd, Written;
    WrittenAt(query, i, out);
    SameQuotes(query, i, out);
    RestOfRun(query, i, out);
    AddsByte(query, i, out, p, Written(query, i));
  }

  lemma {:induction false} NumbersSoFar(query: string, i: nat, out: string)
    requires i <= |query| && NoDollar(query) && RewrittenTo(query, i) <= out
    requires if i < |query| then RewrittenTo(query, i + 1) <= out else |out| == |RewrittenTo(query, i)|
    ensures ReadSoFar(query, i, NumbersTo(out, |RewrittenTo(query, i)|))
  {
    hide Itoa, StateAt, Value, RunEnd, Written;
    if i > 0 {
      var p := |RewrittenTo(query, i - 1)|;
      WrittenAt(query, i - 1, out);
      NumbersSoFar(query, i - 1, out);
      NumbersOfByte(query, i - 1, out, p);
      ReadOneMore(query, i - 1, NumbersTo(out, p), NumberAt(out, p));
    }
  }

  /** One number for each placeholder, and those 1, 2, … if and only if no digits follow. */
  ghost predicate ReadSoFar(query: string, i: nat, numbers: seq<nat>)
    requires i <= |query|
  {
    && |numbers| == ParamsTo(query, i)
    && (numbers == UpTo(ParamsTo(query, i)) <==> NoneRunsOn(query, i))
  }

  lemma ReadOneMore(query: string, i: nat, numbers: seq<nat>, n: nat)
    requires i < |query| && ReadSoFar(query, i, numbers)
    requires IsParam(query, i) ==> (n == ParamsTo(query, i) + 1 <==> !RunsOn(query, i))
    ensures ReadSoFar(query, i + 1, if IsParam(query, i) then numbers + [n] else numbers)
  {
    NoneSoFar(query, i);
    OneLonger(numbers, n, ParamsTo(query, i));
  }

  /** No placeholder among the first i bytes is directly followed by a digit. */
  ghost predicate NoneRunsOn(query: string, i: nat)
    requires i <= |query|
  {
    forall k :: 0 <= k < i && IsParam(query, k) ==> !RunsOn(query, k)
  }

  lemma NoneSoFar(query: string, i: nat)
    requires i < |query|
    ensures NoneRunsOn(query, i + 1) <==> NoneRunsOn(query, i) && !(IsParam(query, i) && RunsOn(query, i))
  {
  }

  lemma OneLonger(numbers: seq<nat>, n: nat, count: nat)
    requires |numbers| == count
    ensures numbers + [n] == UpTo(count + 1) <==> numbers == UpTo(count) && n == count + 1
  {
    if numbers + [n] == UpTo(count + 1) {
      assert numbers == (numbers + [n])[..count] == UpTo(count);
      assert n == (numbers + [n])[count];
    }
  }

  /**
   Of a query without dollar signs of its own, the database reads the parameters 1, 2, … in order,
   one for each placeholder, exactly if no placeholder is directly followed by a digit.
   */
  lemma NumberedInOrderIff(query: string)
    requires NoDollar(query)
    ensures |NumbersTo(Rewritten(query), |Rewritten(query)|)| == ParamsTo(query, |query|)
    ensures NumbersTo(Rewritten(query), |Rewritten(query)|) == UpTo(ParamsTo(query, |query|))
            <==> NoneRunsOn(query, |query|)
  {
    NumbersSoFar(query, |query|, Rewritten(query));
  }

  /** The one placeholder of this query is numbered eleven. */
  lemma DigitFollows()
    ensures Rewritten("?1") == "$11" && NoDollar("?1") && !NoneRunsOn("?1", 2)
  {
    var query := "?1";
    assert IsParam(query, 0) && ParamsTo(query, 0) == 0 && Itoa(1) == "1";
    assert Written(query, 0) == "$1" && !IsParam(query, 1) && Written(query, 1) == "1";
    assert RewrittenTo(query, 1) == "$1";
    assert RunsOn(query, 0);
  }
}
