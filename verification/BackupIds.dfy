/**
 Backup ids (internal/backup/manifest.go: newID, ValidID) and the order retention sorts them by.
 An id is "vd-", the UTC creation time as YYYYMMDDTHHMMSSZ, "-" and eight hexadecimal digits.
 */
module BackupIds {
  import opened Decimal

  /** Go's string order: byte by byte, a prefix before what it begins. */
  predicate Less(a: string, b: string) {
    b != [] && (a == [] || a[0] < b[0] || (a[0] == b[0] && Less(a[1..], b[1..])))
  }

  lemma {:induction false} LessIsTotal(a: string, b: string)
    ensures a == b || Less(a, b) || Less(b, a)
    ensures !(Less(a, b) && Less(b, a))
    ensures Less(a, b) ==> a != b
  {
    if a != [] && b != [] {
      LessIsTotal(a[1..], b[1..]);
      assert a == [a[0]] + a[1..] && b == [b[0]] + b[1..];
    }
  }

  lemma {:induction false} LessIsTransitive(a: string, b: string, c: string)
    requires Less(a, b) && Less(b, c)
    ensures Less(a, c)
  {
    if a != [] {
      if a[0] == b[0] == c[0] {
        LessIsTransitive(a[1..], b[1..], c[1..]);
      }
    }
  }

  /** Behind prefixes of one length, the prefixes decide unless they are the same. */
  lemma {:induction false} LessAfter(a: string, b: string, x: string, y: string)
    requires |a| == |b|
    ensures Less(a + x, b + y) <==> Less(a, b) || (a == b && Less(x, y))
  {
    if a == [] {
      assert a + x == x && b + y == y;
    } else {
      LessAfter(a[1..], b[1..], x, y);
      assert (a + x)[1..] == a[1..] + x && (b + y)[1..] == b[1..] + y;
      assert a == [a[0]] + a[1..] && b == [b[0]] + b[1..];
    }
  }

  function Power10(w: nat): (p: nat)
    ensures p >= 1
  {
    if w == 0 then 1 else 10 * Power10(w - 1)
  }

  /** n in decimal, zero-padded to width w. */
  function Padded(n: nat, w: nat): (s: string)
    requires n < Power10(w)
    ensures |s| == w && forall i :: 0 <= i < w ==> '0' <= s[i] <= '9'
  {
    if w == 0 then "" else Padded(n / 10, w - 1) + [Digit(n % 10)]
  }

  /** Numbers of one width compare like their digits. */
  lemma {:induction false} PaddedOrder(m: nat, n: nat, w: nat)
    requires m < Power10(w) && n < Power10(w)
    ensures Less(Padded(m, w), Padded(n, w)) <==> m < n
    ensures Padded(m, w) == Padded(n, w) <==> m == n
  {
    if w > 0 {
      PaddedOrder(m / 10, n / 10, w - 1);
      var a, b := Padded(m / 10, w - 1), Padded(n / 10, w - 1);
      var x, y := [Digit(m % 10)], [Digit(n % 10)];
      LessAfter(a, b, x, y);
      assert Less(x, y) <==> m % 10 < n % 10;
      assert a + x == b + y <==> a == b && x == y by {
        assert (a + x)[..w - 1] == a && (b + y)[..w - 1] == b && (a + x)[w - 1] == x[0] && (b + y)[w - 1] == y[0];
      }
    }
  }

  /** A UTC time to the second, in a year of four digits. */
  datatype Stamp = Stamp(year: nat, month: nat, day: nat, hour: nat, minute: nat, second: nat) {
    predicate Valid() {
      year < 10000 && month < 100 && day < 100 && hour < 100 && minute < 100 && second < 100
    }
  }

  /** Calendar order. */
  predicate Earlier(a: Stamp, b: Stamp) {
    || a.year < b.year
    || (a.year == b.year && (a.month < b.month
    || (a.month == b.month && (a.day < b.day
    || (a.day == b.day && (a.hour < b.hour
    || (a.hour == b.hour && (a.minute < b.minute
    || (a.minute == b.minute && a.second < b.second)))))))))
  }

  lemma Widths()
    ensures Power10(4) == 10000 && Power10(2) == 100
  {
    assert Power10(1) == 10 && Power10(2) == 100 && Power10(3) == 1000;
  }

  function Two(n: nat): (s: string)
    requires n < 100
    ensures |s| == 2 && forall i :: 0 <= i < 2 ==> '0' <= s[i] <= '9'
  {
    Widths();
    Padded(n, 2)
  }

  function Four(n: nat): (s: string)
    requires n < 10000
    ensures |s| == 4 && forall i :: 0 <= i < 4 ==> '0' <= s[i] <= '9'
  {
    Widths();
    Padded(n, 4)
  }

  function Date(t: Stamp): (s: string)
    requires t.Valid()
    ensures |s| == 8
  {
    Four(t.year) + (Two(t.month) + Two(t.day))
  }

  function Clock(t: Stamp): (s: string)
    requires t.Valid()
    ensures |s| == 6
  {
    Two(t.hour) + (Two(t.minute) + Two(t.second))
  }

  /** newID, given the eight random hexadecimal digits. */
  function NewId(t: Stamp, random: string): (id: string)
    requires t.Valid()
  {
    "vd-" + (Date(t) + ("T" + (Clock(t) + ("Z-" + random))))
  }

  predicate AllDigits(s: string) {
    forall i :: 0 <= i < |s| ==> '0' <= s[i] <= '9'
  }

  predicate AllHex(s: string) {
    forall i :: 0 <= i < |s| ==> '0' <= s[i] <= '9' || 'a' <= s[i] <= 'f'
  }

  /** idPattern: ^vd-[0-9]{8}T[0-9]{6}Z-[0-9a-f]{8}$ */
  predicate ValidId(id: string) {
    && |id| == 28
    && id[..3] == "vd-" && AllDigits(id[3..11]) && id[11] == 'T' && AllDigits(id[12..18])
    && id[18] == 'Z' && id[19] == '-' && AllHex(id[20..])
  }

  /** Ids made by newID have the shape ValidID accepts. */
  lemma NewIdIsValid(t: Stamp, random: string)
    requires t.Valid() && |random| == 8 && AllHex(random)
    ensures ValidId(NewId(t, random))
  {
    var id := NewId(t, random);
    assert id[..3] == "vd-";
    assert id[3..11] == Date(t);
    assert id[12..18] == Clock(t);
    assert id[20..] == random;
  }

  /** The digits of a number of that width, back. */
  lemma {:induction false} PaddedOnto(s: string) returns (n: nat)
    requires AllDigits(s)
    ensures n < Power10(|s|) && Padded(n, |s|) == s
  {
    if s == "" {
      n := 0;
    } else {
      var w := |s| - 1;
      var m := PaddedOnto(s[..w]);
      var d := s[w] as int - '0' as int;
      n := 10 * m + d;
      assert n / 10 == m && n % 10 == d && Digit(d) == s[w];
      assert s == s[..w] + [s[w]];
    }
  }

  lemma TwoOnto(s: string) returns (n: nat)
    requires |s| == 2 && AllDigits(s)
    ensures n < 100 && Two(n) == s
  {
    Widths();
    n := PaddedOnto(s);
  }

  lemma StampOnto(date: string, clock: string) returns (t: Stamp)
    requires |date| == 8 && AllDigits(date) && |clock| == 6 && AllDigits(clock)
    ensures t.Valid() && Date(t) == date && Clock(t) == clock
  {
    Widths();
    var year := PaddedOnto(date[..4]);
    var month := TwoOnto(date[4..6]);
    var day := TwoOnto(date[6..]);
    var hour := TwoOnto(clock[..2]);
    var minute := TwoOnto(clock[2..4]);
    var second := TwoOnto(clock[4..]);
    t := Stamp(year, month, day, hour, minute, second);
    assert date == date[..4] + (date[4..6] + date[6..]) && clock == clock[..2] + (clock[2..4] + clock[4..]);
  }

  /** Nothing else is accepted: every valid id is what newID makes of some stamp and eight hexadecimal digits. */
  lemma ValidIsNew(id: string) returns (t: Stamp, random: string)
    requires ValidId(id)
    ensures t.Valid() && |random| == 8 && (forall i :: 0 <= i < 8 ==> '0' <= random[i] <= '9' || 'a' <= random[i] <= 'f')
    ensures id == NewId(t, random)
  {
    hide Padded, Two, Four, Date, Clock;
    t := StampOnto(id[3..11], id[12..18]);
    random := id[20..];
    assert id == id[..3] + (id[3..11] + ([id[11]] + (id[12..18] + ([id[18], id[19]] + id[20..]))));
  }

  lemma TwoOrder(m: nat, n: nat)
    requires m < 100 && n < 100
    ensures Less(Two(m), Two(n)) <==> m < n
    ensures Two(m) == Two(n) <==> m == n
  {
    Widths();
    PaddedOrder(m, n, 2);
  }

  lemma DateOrder(a: Stamp, b: Stamp)
    requires a.Valid() && b.Valid()
    ensures Less(Date(a), Date(b)) <==>
              a.year < b.year || (a.year == b.year && (a.month < b.month || (a.month == b.month && a.day < b.day)))
    ensures Date(a) == Date(b) <==> a.year == b.year && a.month == b.month && a.day == b.day
  {
    Widths();
    PaddedOrder(a.year, b.year, 4);
    TwoOrder(a.month, b.month);
    TwoOrder(a.day, b.day);
    LessAfter(Two(a.month), Two(b.month), Two(a.day), Two(b.day));
    LessAfter(Four(a.year), Four(b.year), Two(a.month) + Two(a.day), Two(b.month) + Two(b.day));
    SameParts(Two(a.month), Two(b.month), Two(a.day), Two(b.day));
    SameParts(Four(a.year), Four(b.year), Two(a.month) + Two(a.day), Two(b.month) + Two(b.day));
  }

  lemma ClockOrder(a: Stamp, b: Stamp)
    requires a.Valid() && b.Valid()
    ensures Less(Clock(a), Clock(b)) <==>
              a.hour < b.hour || (a.hour == b.hour && (a.minute < b.minute || (a.minute == b.minute && a.second < b.second)))
  {
    TwoOrder(a.hour, b.hour);
    TwoOrder(a.minute, b.minute);
    TwoOrder(a.second, b.second);
    LessAfter(Two(a.minute), Two(b.minute), Two(a.second), Two(b.second));
    LessAfter(Two(a.hour), Two(b.hour), Two(a.minute) + Two(a.second), Two(b.minute) + Two(b.second));
  }

  lemma SameParts(a: string, b: string, x: string, y: string)
    requires |a| == |b|
    ensures a + x == b + y <==> a == b && x == y
  {
    if a + x == b + y {
      assert a == (a + x)[..|a|] && b == (b + y)[..|b|];
      assert x == (a + x)[|a|..] && y == (b + y)[|b|..];
    }
  }

  /** Ids sort by creation time, whatever their random digits. */
  lemma IdsSortByTime(a: Stamp, b: Stamp, r: string, q: string)
    requires a.Valid() && b.Valid() && Earlier(a, b)
    ensures Less(NewId(a, r), NewId(b, q))
  {
    DateOrder(a, b);
    ClockOrder(a, b);
    LessAfter(Clock(a), Clock(b), "Z-" + r, "Z-" + q);
    var x, y := Clock(a) + ("Z-" + r), Clock(b) + ("Z-" + q);
    LessAfter("T", "T", x, y);
    LessAfter(Date(a), Date(b), "T" + x, "T" + y);
    LessAfter("vd-", "vd-", Date(a) + ("T" + x), Date(b) + ("T" + y));
  }
}
