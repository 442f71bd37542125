/** Small things about collections that several modules share. */
module Collections {

  datatype Option<T> = None | Some(value: T)

  function Elems<T(==)>(s: seq<T>): set<T> {
    set x | x in s
  }

  lemma {:induction false} SubsetSize<T>(a: set<T>, b: set<T>)
    requires a <= b
    ensures |a| <= |b|
  {
    if a != {} {
      var x :| x in a;
      SubsetSize(a - {x}, b - {x});
    }
  }

  /** What stands around the last separator is found in one way only. */
  lemma LastSeparator(sep: char, a: string, x: string, b: string, y: string)
    requires a + ([sep] + x) == b + ([sep] + y) && sep !in x && sep !in y
    ensures a == b && x == y
  {
    var whole := a + ([sep] + x);
    assert whole[|a|] == sep && whole[|b|] == sep;
    assert forall k :: |a| < k < |whole| ==> whole[k] == x[k - |a| - 1];
    assert forall k :: |b| < k < |whole| ==> whole[k] == y[k - |b| - 1];
    assert a == whole[..|a|] && b == whole[..|b|];
    assert x == whole[|a| + 1..] && y == whole[|b| + 1..];
  }
}
