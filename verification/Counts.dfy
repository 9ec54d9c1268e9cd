/** How often a value stands in a sequence. */
module Counts {
  function Count<T(==)>(x: T, s: seq<T>): nat {
    if s == [] then 0 else Count(x, s[..|s| - 1]) + if s[|s| - 1] == x then 1 else 0
  }

  lemma {:induction false} CountAppend<T>(x: T, a: seq<T>, b: seq<T>)
    ensures Count(x, a + b) == Count(x, a) + Count(x, b)
  {
    if b == [] {
      assert a + b == a;
    } else {
      assert (a + b)[..|a + b| - 1] == a + b[..|b| - 1];
      CountAppend(x, a, b[..|b| - 1]);
    }
  }

  lemma {:induction false} CountUpdate<T>(x: T, s: seq<T>, i: nat, y: T)
    requires i < |s|
    ensures Count(x, s[i := y]) == Count(x, s) - (if s[i] == x then 1 else 0) + if y == x then 1 else 0
  {
    var n := |s| - 1;
    if i < n {
      assert s[i := y][..n] == s[..n][i := y];
      CountUpdate(x, s[..n], i, y);
    } else {
      assert s[i := y][..n] == s[..n];
    }
  }

  lemma {:induction false} CountMember<T>(x: T, s: seq<T>)
    ensures x in s <==> Count(x, s) > 0
  {
    if s != [] {
      CountMember(x, s[..|s| - 1]);
      assert s == s[..|s| - 1] + [s[|s| - 1]];
    }
  }
}
